/**
  Needle generation (NeedleMaker in mtfind.cpp): the search alphabet, mask
  validation, and the recursive expansion of a mask into concrete needles.
 */
module Needles {

  import opened TextSearch

  /** The wildcard character of a mask (code 63). */
  const Wildcard: char := '?'

  /** The longest mask isValidMask accepts. */
  const MaxMaskLength: nat := 100

  /** The most wildcards isValidMask accepts. */
  const MaxWildcards: nat := 2

  /** The number of characters a wildcard ranges over. */
  const AlphabetSize: nat := 94

  /** The characters a wildcard may stand for: codes 32..126 except the wildcard itself. */
  predicate InAlphabet(c: char)
  {
    32 <= c as int < 127 && c != Wildcard
  }

  /** The alphabet getASCII builds: codes 32..62 and then 64..126, in ascending order. */
  function Alphabet(): (r: seq<char>)
    ensures |r| == AlphabetSize
    ensures forall k :: 0 <= k < |r| ==> InAlphabet(r[k])
    ensures forall a, b :: 0 <= a < b < |r| ==> r[a] < r[b]
  {
    seq(94, k requires 0 <= k < 94 => if k < 31 then (32 + k) as char else (33 + k) as char)
  }

  /** The alphabet is exactly the characters InAlphabet admits. */
  lemma AlphabetExactly(c: char)
    ensures c in Alphabet() <==> InAlphabet(c)
  {
    if InAlphabet(c) {
      var k := if c as int < 63 then c as int - 32 else c as int - 33;
      assert Alphabet()[k] == c;
    }
  }

  /** How many entries of the alphabet have a code below `i`. */
  function CodesBelow(i: int): nat
    requires 32 <= i <= 127
  {
    if i <= 63 then i - 32 else i - 33
  }

  /** The number of wildcards in `s`. */
  function WildCount(s: string): nat
  {
    if s == [] then 0 else (if s[0] == Wildcard then 1 else 0) + WildCount(s[1..])
  }

  lemma {:induction false} WildCountAppend(a: string, b: string)
    ensures WildCount(a + b) == WildCount(a) + WildCount(b)
  {
    if a != [] {
      assert (a + b)[0] == a[0];
      assert (a + b)[1..] == a[1..] + b;
      WildCountAppend(a[1..], b);
    } else {
      assert a + b == b;
    }
  }

  lemma WildCountStep(s: string, i: nat)
    requires i < |s|
    ensures WildCount(s[i..]) == (if s[i] == Wildcard then 1 else 0) + WildCount(s[i + 1..])
  {
    assert s[i..][1..] == s[i + 1..];
  }

  lemma {:induction false} WildCountBound(s: string)
    ensures WildCount(s) <= |s|
  {
    if s != [] {
      WildCountBound(s[1..]);
    }
  }

  /** A string without wildcards has none at any position. */
  lemma {:induction false} WildCountZero(s: string)
    requires WildCount(s) == 0
    ensures forall i :: 0 <= i < |s| ==> s[i] != Wildcard
  {
    if s != [] {
      WildCountZero(s[1..]);
      assert forall i :: 1 <= i < |s| ==> s[i] == s[1..][i - 1];
    }
  }

  /** Replacing one wildcard by an alphabet character removes exactly one wildcard. */
  lemma WildCountReplace(s: string, i: nat, c: char)
    requires i < |s| && s[i] == Wildcard && c != Wildcard
    ensures WildCount(s[i := c]) == WildCount(s) - 1
  {
    assert s == s[..i] + [s[i]] + s[i + 1..];
    assert s[i := c] == s[..i] + [c] + s[i + 1..];
    WildCountAppend(s[..i] + [s[i]], s[i + 1..]);
    WildCountAppend(s[..i], [s[i]]);
    WildCountAppend(s[..i] + [c], s[i + 1..]);
    WildCountAppend(s[..i], [c]);
  }

  /**
    `needle` is one of the literals `mask` stands for: same length, the
    mask's character at every fixed position, an alphabet character at every
    wildcard position.
   */
  predicate IsInstance(mask: string, needle: string)
  {
    |needle| == |mask| &&
    forall i :: 0 <= i < |mask| ==>
      if mask[i] == Wildcard then InAlphabet(needle[i]) else needle[i] == mask[i]
  }

  /**
    makeFromMask as the code computes it: the needles collected by the loop
    over the mask's positions, or the mask itself when that loop found no
    wildcard.
   */
  function Expand(mask: string): seq<string>
    decreases WildCount(mask), 2, 0
  {
    var needles := ExpandFrom(mask, 0);
    if needles == [] then [mask] else needles
  }

  /**
    The outer loop from position `i` on: every wildcard of the ORIGINAL mask
    starts its own expansion.
   */
  function ExpandFrom(mask: string, i: nat): seq<string>
    requires i <= |mask|
    decreases WildCount(mask), 1, |mask| - i
  {
    if i == |mask| then []
    else (if mask[i] == Wildcard then ExpandAt(mask, i, 0) else []) + ExpandFrom(mask, i + 1)
  }

  /**
    The inner loop at wildcard position `i` from alphabet entry `j` on: the
    expansion of the mask with that wildcard replaced, entry by entry.
   */
  function ExpandAt(mask: string, i: nat, j: nat): seq<string>
    requires i < |mask| && mask[i] == Wildcard && j <= AlphabetSize
    decreases WildCount(mask), 0, AlphabetSize - j
  {
    if j == AlphabetSize then []
    else
      WildCountReplace(mask, i, Alphabet()[j]);
      Expand(mask[i := Alphabet()[j]]) + ExpandAt(mask, i, j + 1)
  }

  function Fact(n: nat): (r: nat)
    ensures r >= 1
  {
    if n == 0 then 1 else n * Fact(n - 1)
  }

  function Pow(b: nat, n: nat): (r: nat)
    ensures b >= 1 ==> r >= 1
  {
    if n == 0 then 1 else b * Pow(b, n - 1)
  }

  /** k! * 94^k: the number of needles makeFromMask produces for k wildcards. */
  function ExpansionSize(k: nat): (r: nat)
    ensures r >= 1
  {
    Fact(k) * Pow(AlphabetSize, k)
  }

  /** The outer loop finds nothing when no wildcard is left from `i` on. */
  lemma {:induction false} ExpandFromNone(mask: string, i: nat)
    requires i <= |mask| && WildCount(mask[i..]) == 0
    ensures ExpandFrom(mask, i) == []
    decreases |mask| - i
  {
    if i < |mask| {
      WildCountStep(mask, i);
      ExpandFromNone(mask, i + 1);
    }
  }

  /** One step of the outer loop: what position `i` contributes, then the positions after it. */
  lemma ExpandFromStep(mask: string, i: nat, acc: seq<string>)
    requires i < |mask|
    ensures mask[i] == Wildcard ==>
      acc + ExpandFrom(mask, i) == (acc + ExpandAt(mask, i, 0)) + ExpandFrom(mask, i + 1)
    ensures mask[i] != Wildcard ==> acc + ExpandFrom(mask, i) == acc + ExpandFrom(mask, i + 1)
  {
    if mask[i] != Wildcard {
      assert ExpandFrom(mask, i) == [] + ExpandFrom(mask, i + 1);
    }
  }

  /** A mask with no wildcard yields exactly itself. */
  lemma NoWildcardNeedle(mask: string)
    requires WildCount(mask) == 0
    ensures Expand(mask) == [mask]
  {
    assert mask[0..] == mask;
    ExpandFromNone(mask, 0);
  }

  lemma OneMore(a: nat, e: nat)
    ensures e + a * e == (a + 1) * e
  {
  }

  lemma MulShape(w: nat, b: nat, f: nat, p: nat)
    ensures w * (b * (f * p)) == (w * f) * (b * p)
  {
  }

  /** A mask with k wildcards yields k! * 94^k needles. */
  lemma {:induction false} ExpandLength(mask: string)
    ensures |Expand(mask)| == ExpansionSize(WildCount(mask))
    decreases WildCount(mask), 2, 0
  {
    var w := WildCount(mask);
    if w == 0 {
      NoWildcardNeedle(mask);
    } else {
      assert mask[0..] == mask;
      ExpandFromLength(mask, 0);
      var s := ExpansionSize(w - 1);
      assert |ExpandFrom(mask, 0)| == w * (AlphabetSize * s);
      MulShape(w, AlphabetSize, Fact(w - 1), Pow(AlphabetSize, w - 1));
      assert w * (AlphabetSize * s) == ExpansionSize(w);
    }
  }

  lemma {:induction false} ExpandFromLength(mask: string, i: nat)
    requires i <= |mask| && WildCount(mask) >= 1
    ensures |ExpandFrom(mask, i)| == WildCount(mask[i..]) * (AlphabetSize * ExpansionSize(WildCount(mask) - 1))
    decreases WildCount(mask), 1, |mask| - i
  {
    var c := AlphabetSize * ExpansionSize(WildCount(mask) - 1);
    if i == |mask| {
      assert mask[i..] == [];
    } else {
      WildCountStep(mask, i);
      ExpandFromLength(mask, i + 1);
      if mask[i] == Wildcard {
        ExpandAtLength(mask, i, 0);
        assert |ExpandFrom(mask, i)| == c + WildCount(mask[i + 1..]) * c;
        OneMore(WildCount(mask[i + 1..]), c);
      }
    }
  }

  lemma {:induction false} ExpandAtLength(mask: string, i: nat, j: nat)
    requires i < |mask| && mask[i] == Wildcard && j <= AlphabetSize && WildCount(mask) >= 1
    ensures |ExpandAt(mask, i, j)| == (AlphabetSize - j) * ExpansionSize(WildCount(mask) - 1)
    decreases WildCount(mask), 0, AlphabetSize - j
  {
    if j < AlphabetSize {
      var c := Alphabet()[j];
      WildCountReplace(mask, i, c);
      ExpandLength(mask[i := c]);
      ExpandAtLength(mask, i, j + 1);
      var e := ExpansionSize(WildCount(mask) - 1);
      assert |ExpandAt(mask, i, j)| == e + (AlphabetSize - j - 1) * e;
      OneMore(AlphabetSize - j - 1, e);
    }
  }

  /** Filling one wildcard with `c` keeps exactly the instances that have `c` there. */
  lemma InstanceReplace(mask: string, i: nat, c: char, n: string)
    requires i < |mask| && mask[i] == Wildcard && InAlphabet(c)
    ensures IsInstance(mask[i := c], n) <==> IsInstance(mask, n) && n[i] == c
  {
    if IsInstance(mask[i := c], n) {
      assert n[i] == c;
      forall k | 0 <= k < |mask|
        ensures if mask[k] == Wildcard then InAlphabet(n[k]) else n[k] == mask[k]
      {
        if k != i { assert mask[i := c][k] == mask[k]; }
      }
    }
  }

  /** An alphabet character occurs in the alphabet from entry `j` on iff it is entry `j` or occurs after it, and not both. */
  lemma AlphabetSuffix(j: nat, c: char)
    requires j < AlphabetSize
    ensures c in Alphabet()[j..] <==> c == Alphabet()[j] || c in Alphabet()[j + 1..]
    ensures !(Alphabet()[j] in Alphabet()[j + 1..])
  {
    var a := Alphabet();
    assert a[j..] == [a[j]] + a[j + 1..];
  }

  /**
    Every instance of the mask appears exactly k! times among its needles,
    where k is the number of wildcards, and nothing else appears.
   */
  lemma {:induction false} ExpandCount(mask: string, n: string)
    ensures multiset(Expand(mask))[n] == if IsInstance(mask, n) then Fact(WildCount(mask)) else 0
    decreases WildCount(mask), 2, 0
  {
    var w := WildCount(mask);
    if w == 0 {
      NoWildcardNeedle(mask);
      WildCountZero(mask);
      if IsInstance(mask, n) {
        assert n == mask;
      }
    } else {
      ExpandLength(mask);
      assert mask[0..] == mask;
      ExpandFromCount(mask, 0, n);
    }
  }

  lemma {:induction false} ExpandFromCount(mask: string, i: nat, n: string)
    requires i <= |mask| && WildCount(mask) >= 1
    ensures multiset(ExpandFrom(mask, i))[n] ==
      if IsInstance(mask, n) then WildCount(mask[i..]) * Fact(WildCount(mask) - 1) else 0
    decreases WildCount(mask), 1, |mask| - i
  {
    if i == |mask| {
      assert mask[i..] == [];
    } else {
      ExpandFromCount(mask, i + 1, n);
      if mask[i] == Wildcard {
        ExpandAtCount(mask, i, 0, n);
        WildcardCount(mask, i, n);
      } else {
        PlainCount(mask, i, n);
      }
    }
  }

  /** The count step at an ordinary character: it contributes no needle of its own. */
  lemma PlainCount(mask: string, i: nat, n: string)
    requires i < |mask| && mask[i] != Wildcard && WildCount(mask) >= 1
    requires multiset(ExpandFrom(mask, i + 1))[n] ==
      if IsInstance(mask, n) then WildCount(mask[i + 1..]) * Fact(WildCount(mask) - 1) else 0
    ensures multiset(ExpandFrom(mask, i))[n] ==
      if IsInstance(mask, n) then WildCount(mask[i..]) * Fact(WildCount(mask) - 1) else 0
  {
    WildCountStep(mask, i);
    assert ExpandFrom(mask, i) == [] + ExpandFrom(mask, i + 1);
  }

  /**
    The count step at a wildcard: its own expansion adds one more copy of
    every instance to those the rest of the mask contributes.
   */
  lemma WildcardCount(mask: string, i: nat, n: string)
    requires i < |mask| && mask[i] == Wildcard && WildCount(mask) >= 1
    requires multiset(ExpandAt(mask, i, 0))[n] ==
      if IsInstance(mask, n) && n[i] in Alphabet()[0..] then Fact(WildCount(mask) - 1) else 0
    requires multiset(ExpandFrom(mask, i + 1))[n] ==
      if IsInstance(mask, n) then WildCount(mask[i + 1..]) * Fact(WildCount(mask) - 1) else 0
    ensures multiset(ExpandFrom(mask, i))[n] ==
      if IsInstance(mask, n) then WildCount(mask[i..]) * Fact(WildCount(mask) - 1) else 0
  {
    WildCountStep(mask, i);
    var f := Fact(WildCount(mask) - 1);
    var rest := WildCount(mask[i + 1..]);
    var at := ExpandAt(mask, i, 0);
    var later := ExpandFrom(mask, i + 1);
    assert ExpandFrom(mask, i) == at + later;
    assert multiset(ExpandFrom(mask, i))[n] == multiset(at)[n] + multiset(later)[n];
    if IsInstance(mask, n) {
      AlphabetExactly(n[i]);
      assert Alphabet()[0..] == Alphabet();
      OneMore(rest, f);
    }
  }

  lemma {:induction false} ExpandAtCount(mask: string, i: nat, j: nat, n: string)
    requires i < |mask| && mask[i] == Wildcard && j <= AlphabetSize && WildCount(mask) >= 1
    ensures multiset(ExpandAt(mask, i, j))[n] ==
      if IsInstance(mask, n) && n[i] in Alphabet()[j..] then Fact(WildCount(mask) - 1) else 0
    decreases WildCount(mask), 0, AlphabetSize - j
  {
    if j < AlphabetSize {
      var c := Alphabet()[j];
      WildCountReplace(mask, i, c);
      ExpandCount(mask[i := c], n);
      ExpandAtCount(mask, i, j + 1, n);
      InstanceReplace(mask, i, c, n);
      if IsInstance(mask, n) {
        AlphabetSuffix(j, n[i]);
      }
    }
  }

  /** Every needle is an instance of the mask, and every instance is a needle. */
  lemma ExpandMembers(mask: string)
    ensures forall n :: n in Expand(mask) <==> IsInstance(mask, n)
    ensures forall n :: n in Expand(mask) ==> |n| == |mask| && Wildcard !in n
  {
    forall n
      ensures n in Expand(mask) <==> IsInstance(mask, n)
    {
      ExpandCount(mask, n);
    }
    forall n | n in Expand(mask)
      ensures |n| == |mask| && Wildcard !in n
    {
      assert IsInstance(mask, n);
    }
  }

  /** Two equal entries at different indices make an element occur at least twice. */
  lemma RepeatedEntry<T>(s: seq<T>, a: nat, b: nat)
    requires a < b < |s| && s[a] == s[b]
    ensures multiset(s)[s[a]] >= 2
  {
    assert s == s[..b] + s[b..];
    assert s[a] in s[..b];
    assert s[b..][0] == s[b];
  }

  /** One wildcard: exactly 94 needles, pairwise distinct, the instances of the mask. */
  lemma OneWildcardNeedles(mask: string)
    requires WildCount(mask) == 1
    ensures |Expand(mask)| == AlphabetSize
    ensures forall a, b :: 0 <= a < b < |Expand(mask)| ==> Expand(mask)[a] != Expand(mask)[b]
  {
    ExpandLength(mask);
    var e := Expand(mask);
    forall a, b | 0 <= a < b < |e|
      ensures e[a] != e[b]
    {
      if e[a] == e[b] {
        RepeatedEntry(e, a, b);
        ExpandCount(mask, e[a]);
        assert false;
      }
    }
  }

  /**
    Two wildcards: 2 * 94 * 94 needles, because each wildcard of the original
    mask starts its own full expansion; every combination appears exactly twice.
   */
  lemma TwoWildcardNeedles(mask: string)
    requires WildCount(mask) == 2
    ensures |Expand(mask)| == 2 * AlphabetSize * AlphabetSize
    ensures forall n :: multiset(Expand(mask))[n] == if IsInstance(mask, n) then 2 else 0
  {
    ExpandLength(mask);
    forall n
      ensures multiset(Expand(mask))[n] == if IsInstance(mask, n) then 2 else 0
    {
      ExpandCount(mask, n);
    }
  }

  /** The NeedleMaker object, whose only state is the cached alphabet. */
  class NeedleMaker {
    var ascii: seq<char>

    /** The cache is either still empty or holds the full alphabet. */
    ghost predicate Valid()
      reads this
    {
      ascii == [] || ascii == Alphabet()
    }

    constructor()
      ensures Valid() && ascii == []
    {
      ascii := [];
    }

    /** getASCII: builds the alphabet on the first call, returns the cached one afterwards. */
    method GetAscii() returns (chars: seq<char>)
      requires Valid()
      modifies this
      ensures Valid()
      ensures chars == Alphabet() && ascii == Alphabet()
      ensures old(ascii) != [] ==> ascii == old(ascii)
    {
      if |ascii| > 0 {
        return ascii;
      }
      for i := 32 to 127
        invariant ascii == Alphabet()[..CodesBelow(i)]
      {
        if i != 63 {
          ascii := ascii + [i as char];
        }
      }
      assert Alphabet()[..CodesBelow(127)] == Alphabet();
      chars := ascii;
    }

    /** isValidMask: at most 100 characters and at most two wildcards. */
    method IsValidMask(mask: string) returns (valid: bool)
      ensures valid <==> |mask| <= MaxMaskLength && WildCount(mask) <= MaxWildcards
    {
      if |mask| > 100 {
        return false;
      }
      WildCountBound(mask);
      var anyCounter: uint8 := 0;
      for i := 0 to |mask|
        invariant anyCounter as int + WildCount(mask[i..]) == WildCount(mask)
      {
        WildCountStep(mask, i);
        if mask[i] == Wildcard {
          // uint8_t increment; the length check above keeps it from wrapping
          anyCounter := ((anyCounter as int + 1) % 0x100) as uint8;
        }
      }
      assert mask[|mask|..] == [];
      return if anyCounter > 2 then false else true;
    }

    /**
      makeFromMask: the loop over the mask's positions, with each `?` handed
      to ExpandWildcard, and the mask itself when no `?` was found.  The
      cache is filled as soon as one `?` is met and untouched otherwise.
     */
    method MakeFromMask(mask: string) returns (needles: seq<string>)
      requires Valid()
      modifies this
      ensures Valid()
      ensures needles == Expand(mask)
      ensures WildCount(mask) == 0 ==> ascii == old(ascii)
      ensures WildCount(mask) > 0 ==> ascii == Alphabet()
      decreases WildCount(mask), 1
    {
      needles := [];
      assert mask[0..] == mask;
      for it := 0 to |mask|
        invariant Valid()
        invariant needles + ExpandFrom(mask, it) == ExpandFrom(mask, 0)
        invariant WildCount(mask[it..]) <= WildCount(mask)
        invariant WildCount(mask[it..]) == WildCount(mask) ==> ascii == old(ascii)
        invariant WildCount(mask[it..]) < WildCount(mask) ==> ascii == Alphabet()
      {
        WildCountStep(mask, it);
        ExpandFromStep(mask, it, needles);
        if mask[it] == Wildcard {
          var index := it;
          var wildcardNeedles := ExpandWildcard(mask, index);
          needles := needles + wildcardNeedles;
        }
      }
      if |needles| == 0 {
        needles := needles + [mask];
      }
    }

    /**
      The inner loop of makeFromMask at the `?` in position `index`: for each
      alphabet character, the needles of the mask with that `?` replaced.
     */
    method ExpandWildcard(mask: string, index: nat) returns (needles: seq<string>)
      requires Valid()
      requires index < |mask| && mask[index] == Wildcard
      modifies this
      ensures ascii == Alphabet()
      ensures needles == ExpandAt(mask, index, 0)
      decreases WildCount(mask), 0
    {
      var chars := GetAscii();
      needles := [];
      for k := 0 to |chars|
        invariant ascii == Alphabet()
        invariant needles + ExpandAt(mask, index, k) == ExpandAt(mask, index, 0)
      {
        var needle := mask[index := chars[k]];
        WildCountReplace(mask, index, chars[k]);
        var characterNeedles := MakeFromMask(needle);
        needles := needles + characterNeedles;
      }
    }
  }
}
