/**
  The Invoker of mtfind.cpp: it pops the loaded lines from the back, runs
  one Searcher per needle on each line and folds all tokens into a
  std::set<Token> ordered by Token::operator<, which compares line indexes
  only.  Two tokens of one line are therefore the same element of the set,
  and the set keeps whichever was inserted first.
 */
module Coordinator {

  import opened TextSearch
  import Scanning

  /** Token::operator<: only the line indexes are compared. */
  predicate TokenLess(a: Token, b: Token)
  {
    a.lineIndex < b.lineIndex
  }

  /** Neither token is less than the other, so std::set treats them as one element. */
  predicate Equivalent(a: Token, b: Token)
  {
    !TokenLess(a, b) && !TokenLess(b, a)
  }

  /**
    The token set.  As its ordering sees nothing but the line index, a
    std::set<Token> is a map from line index to the one token kept for it.
   */
  type TokenSet = map<uint32, Token>

  /** Every token is stored under its own line index. */
  ghost predicate KeyedByLine(s: TokenSet)
  {
    forall k :: k in s ==> s[k].lineIndex == k
  }

  /** The elements of the set, as std::set's iteration yields them (unordered here; see InOrder). */
  ghost function Elements(s: TokenSet): set<Token>
  {
    s.Values
  }

  /** std::set::insert: the token goes in only when no equivalent element is present. */
  function InsertToken(s: TokenSet, t: Token): (r: TokenSet)
    ensures r.Keys == s.Keys + {t.lineIndex}
    ensures forall k :: k in s ==> r[k] == s[k]
    ensures t.lineIndex !in s ==> r[t.lineIndex] == t
  {
    if t.lineIndex in s then s else s[t.lineIndex := t]
  }

  /**
    The map model agrees with std::set's own rule: inserting leaves the
    elements alone when an equivalent one is present, and adds `t` otherwise.
   */
  lemma InsertTokenElements(s: TokenSet, t: Token)
    requires KeyedByLine(s)
    ensures KeyedByLine(InsertToken(s, t))
    ensures Elements(InsertToken(s, t)) ==
      if exists e :: e in Elements(s) && Equivalent(e, t) then Elements(s) else Elements(s) + {t}
  {
    var r := InsertToken(s, t);
    if t.lineIndex in s {
      assert s[t.lineIndex] in Elements(s) && Equivalent(s[t.lineIndex], t);
    } else {
      forall e | e in Elements(s)
        ensures !Equivalent(e, t)
      {
        var k :| k in s && s[k] == e;
      }
      forall e | e in Elements(r)
        ensures e in Elements(s) + {t}
      {
        var k :| k in r && r[k] == e;
        if k != t.lineIndex {
          assert k in s;
        }
      }
      forall e | e in Elements(s) + {t}
        ensures e in Elements(r)
      {
        if e != t {
          var k :| k in s && s[k] == e;
          assert r[k] == e;
        } else {
          assert r[t.lineIndex] == t;
        }
      }
    }
  }

  /** The set holds at most one token per line index. */
  lemma OnePerLine(s: TokenSet, a: Token, b: Token)
    requires KeyedByLine(s)
    requires a in Elements(s) && b in Elements(s)
    ensures Equivalent(a, b) <==> a == b
  {
    var ka :| ka in s && s[ka] == a;
    var kb :| kb in s && s[kb] == b;
  }

  /** Inserting the tokens of `ts` one after another, in order. */
  function InsertAll(s: TokenSet, ts: seq<Token>): (r: TokenSet)
    ensures forall k :: k in s ==> k in r && r[k] == s[k]
    ensures forall i :: 0 <= i < |ts| ==> ts[i].lineIndex in r
    ensures forall k :: k in r ==> k in s || exists i :: 0 <= i < |ts| && ts[i].lineIndex == k
    ensures KeyedByLine(s) ==> KeyedByLine(r)
    decreases |ts|
  {
    if ts == [] then s
    else
      var r := InsertAll(InsertToken(s, ts[0]), ts[1..]);
      assert forall i :: 0 < i < |ts| ==> ts[i] == ts[1..][i - 1];
      r
  }

  /**
    For a line index not yet in the set, the token kept is the first one of
    `ts` with that line index.
   */
  lemma {:induction false} InsertAllFirst(s: TokenSet, ts: seq<Token>, i: nat)
    requires i < |ts| && ts[i].lineIndex !in s
    requires forall j :: 0 <= j < i ==> ts[j].lineIndex != ts[i].lineIndex
    ensures InsertAll(s, ts)[ts[i].lineIndex] == ts[i]
    decreases |ts|
  {
    var s1 := InsertToken(s, ts[0]);
    assert InsertAll(s, ts) == InsertAll(s1, ts[1..]);
    if i > 0 {
      assert ts[1..][i - 1] == ts[i];
      InsertAllFirst(s1, ts[1..], i - 1);
    }
  }

  /** When all tokens share one line index, only the first can enter the set, and only if the line is new. */
  lemma {:induction false} InsertAllSameLine(s: TokenSet, ts: seq<Token>, k: uint32)
    requires forall i :: 0 <= i < |ts| ==> ts[i].lineIndex == k
    ensures InsertAll(s, ts) == if k in s || ts == [] then s else s[k := ts[0]]
    decreases |ts|
  {
    if ts != [] {
      var s1 := InsertToken(s, ts[0]);
      assert k in s1;
      InsertAllSameLine(s1, ts[1..], k);
    }
  }

  /** The vector of vectors read in order: slot 0's tokens, then slot 1's, and so on. */
  function Flatten(lists: seq<seq<Token>>): seq<Token>
  {
    if lists == [] then [] else lists[0] + Flatten(lists[1..])
  }

  /** Inserting from position j of `a`, then `rest`: insert a[j], then carry on from j + 1. */
  lemma InsertAllStep(s: TokenSet, a: seq<Token>, j: nat, rest: seq<Token>)
    requires j < |a|
    ensures InsertAll(s, a[j..] + rest) == InsertAll(InsertToken(s, a[j]), a[j + 1..] + rest)
  {
    var q := a[j..] + rest;
    assert q[0] == a[j];
    assert q[1..] == a[j + 1..] + rest;
  }

  /** Flattening from slot i: slot i's tokens, then the later slots'. */
  lemma FlattenStep(lists: seq<seq<Token>>, i: nat)
    requires i < |lists|
    ensures Flatten(lists[i..]) == lists[i] + Flatten(lists[i + 1..])
  {
    assert lists[i..][0] == lists[i];
    assert lists[i..][1..] == lists[i + 1..];
  }

  /**
    The collectTokens lambda of parallel_search: every token of every slot,
    in slot order and in order within a slot, is inserted into the set.
   */
  method CollectTokens(tokens: TokenSet, lineTokensList: seq<seq<Token>>) returns (result: TokenSet)
    ensures result == InsertAll(tokens, Flatten(lineTokensList))
  {
    ghost var goal := InsertAll(tokens, Flatten(lineTokensList));
    result := tokens;
    assert lineTokensList[0..] == lineTokensList;
    for i := 0 to |lineTokensList|
      invariant InsertAll(result, Flatten(lineTokensList[i..])) == goal
    {
      var lineTokens := lineTokensList[i];
      ghost var rest := Flatten(lineTokensList[i + 1..]);
      FlattenStep(lineTokensList, i);
      assert lineTokens[0..] == lineTokens;
      for j := 0 to |lineTokens|
        invariant InsertAll(result, lineTokens[j..] + rest) == goal
      {
        InsertAllStep(result, lineTokens, j, rest);
        result := InsertToken(result, lineTokens[j]);
      }
      assert lineTokens[|lineTokens|..] + rest == rest;
    }
    assert lineTokensList[|lineTokensList|..] == [];
  }

  /** The slots std::transform fills for one line: slot j holds needle j's search result. */
  function LineResults(line: string, needles: seq<string>, lineIndex: uint32): seq<seq<Token>>
  {
    seq(|needles|, j requires 0 <= j < |needles| => TokensFrom(line, needles[j], lineIndex, 0, 1))
  }

  /** The first needle, at index `from` or later, that occurs somewhere in `line`; |needles| if none does. */
  function FirstHitNeedle(line: string, needles: seq<string>, from: nat): (j: nat)
    requires from <= |needles|
    ensures from <= j <= |needles|
    ensures j < |needles| ==> FindFrom(line, needles[j], 0) < |line|
    ensures forall i :: from <= i < j ==> FindFrom(line, needles[i], 0) == |line|
    decreases |needles| - from
  {
    if from == |needles| then from
    else if FindFrom(line, needles[from], 0) < |line| then from
    else FirstHitNeedle(line, needles, from + 1)
  }

  /** True when at least one needle occurs in `line`. */
  predicate HasHit(line: string, needles: seq<string>)
  {
    FirstHitNeedle(line, needles, 0) < |needles|
  }

  /**
    The token the set keeps for a line, when the line contains some needle:
    the leftmost match of the earliest matching needle in needle order.
   */
  function LineHit(line: string, needles: seq<string>, lineIndex: uint32): (r: Option<Token>)
    ensures r.None? <==> !HasHit(line, needles)
    ensures r.Some? ==> r.value.lineIndex == lineIndex
  {
    var j := FirstHitNeedle(line, needles, 0);
    if j == |needles| then None
    else Some(TokenAt(needles[j], FindFrom(line, needles[j], 0), 1, lineIndex))
  }

  /** HasHit means what it says: some needle occurs at some position of the line. */
  lemma HasHitIff(line: string, needles: seq<string>)
    ensures HasHit(line, needles) <==>
      exists j, p :: 0 <= j < |needles| && 0 <= p < |line| && MatchAt(line, needles[j], p)
  {
    var j := FirstHitNeedle(line, needles, 0);
    if j < |needles| {
      var p := FindFrom(line, needles[j], 0);
      assert MatchAt(line, needles[j], p);
    } else {
      forall i, p | 0 <= i < |needles| && 0 <= p < |line|
        ensures !MatchAt(line, needles[i], p)
      {
        assert FindFrom(line, needles[i], 0) == |line|;
      }
    }
  }

  /**
    What the kept token says: no earlier needle occurs in the line, its
    needle occurs at its column (1-based, while the line is shorter than
    65535 characters) and at no smaller column.
   */
  lemma LineHitToken(line: string, needles: seq<string>, lineIndex: uint32)
    requires |line| < 0x1_0000
    requires LineHit(line, needles, lineIndex).Some?
    ensures var t := LineHit(line, needles, lineIndex).value;
      exists j :: 0 <= j < |needles| && t.needle == needles[j] &&
        (forall i, p :: 0 <= i < j && 0 <= p < |line| ==> !MatchAt(line, needles[i], p)) &&
        1 <= t.symbolIndex as int <= |line| &&
        MatchAt(line, needles[j], t.symbolIndex as int - 1) &&
        (forall p :: 0 <= p < t.symbolIndex as int - 1 ==> !MatchAt(line, needles[j], p))
  {
    var j := FirstHitNeedle(line, needles, 0);
    var p := FindFrom(line, needles[j], 0);
    var t := LineHit(line, needles, lineIndex).value;
    assert t.symbolIndex as int == p + 1;
    forall i, q | 0 <= i < j && 0 <= q < |line|
      ensures !MatchAt(line, needles[i], q)
    {
      assert FindFrom(line, needles[i], 0) == |line|;
    }
  }

  /**
    Flattening the slots from `from` on: every token is tagged with the
    line's index, the result is empty exactly when no needle from `from` on
    occurs, and otherwise it starts with the first match of the first
    needle that does.
   */
  lemma {:induction false} FlattenLineResults(line: string, needles: seq<string>, lineIndex: uint32, from: nat)
    requires from <= |needles|
    ensures var f := Flatten(LineResults(line, needles, lineIndex)[from..]);
      var j := FirstHitNeedle(line, needles, from);
      (forall k :: 0 <= k < |f| ==> f[k].lineIndex == lineIndex) &&
      (f == [] <==> j == |needles|) &&
      (f != [] ==> j < |needles| && f[0] == TokenAt(needles[j], FindFrom(line, needles[j], 0), 1, lineIndex))
    decreases |needles| - from
  {
    var lr := LineResults(line, needles, lineIndex);
    if from < |needles| {
      FlattenLineResults(line, needles, lineIndex, from + 1);
      assert lr[from..][0] == lr[from];
      assert lr[from..][1..] == lr[from + 1..];
      var head := TokensFrom(line, needles[from], lineIndex, 0, 1);
      assert Flatten(lr[from..]) == head + Flatten(lr[from + 1..]);
      TokensFromNext(line, needles[from], lineIndex, 0, 1);
      TokensCarryNeedle(line, needles[from], lineIndex, 0, 1);
    } else {
      assert lr[from..] == [];
    }
  }

  /** All the tokens of one line go into the set as that line's LineHit, if the line is new. */
  lemma InsertLine(s: TokenSet, line: string, needles: seq<string>, lineIndex: uint32)
    ensures var r := InsertAll(s, Flatten(LineResults(line, needles, lineIndex)));
      r == if lineIndex in s || LineHit(line, needles, lineIndex).None? then s
           else s[lineIndex := LineHit(line, needles, lineIndex).value]
  {
    var lr := LineResults(line, needles, lineIndex);
    assert lr[0..] == lr;
    FlattenLineResults(line, needles, lineIndex, 0);
    InsertAllSameLine(s, Flatten(lr), lineIndex);
  }

  /**
    parallel_search as a value: pop the last line, tag it with the number of
    lines before the pop (as a uint16_t), search it for every needle and
    collect the results; repeat until no line is left.
   */
  function Scan(tokens: TokenSet, lines: seq<string>, needles: seq<string>): (r: TokenSet)
    ensures KeyedByLine(tokens) ==> KeyedByLine(r)
    decreases |lines|
  {
    if lines == [] then tokens
    else
      var n := |lines|;
      var lineIndex := ToUint16(n) as uint32;
      Scan(InsertAll(tokens, Flatten(LineResults(lines[n - 1], needles, lineIndex))), lines[..n - 1], needles)
  }

  /** The token stored under `k`, if any. */
  function Lookup(s: TokenSet, k: uint32): Option<Token>
  {
    if k in s then Some(s[k]) else None
  }

  /** The set after one line, key by key: old keys keep their token, the line's index gets its LineHit. */
  lemma InsertLineLookup(s: TokenSet, line: string, needles: seq<string>, lineIndex: uint32)
    ensures var r := InsertAll(s, Flatten(LineResults(line, needles, lineIndex)));
      forall k: uint32 :: Lookup(r, k) ==
        if k in s then Some(s[k]) else if k == lineIndex then LineHit(line, needles, lineIndex) else None
  {
    InsertLine(s, line, needles, lineIndex);
  }

  /** One step of Scan: the last line is collected first, under index |lines| as a uint16_t. */
  lemma ScanUnfold(tokens: TokenSet, lines: seq<string>, needles: seq<string>)
    requires lines != []
    ensures var n := |lines|;
      var lineIndex := ToUint16(n) as uint32;
      Scan(tokens, lines, needles) ==
        Scan(InsertAll(tokens, Flatten(LineResults(lines[n - 1], needles, lineIndex))), lines[..n - 1], needles)
  {
  }

  /**
    With fewer than 65536 lines no index wraps: the set keeps what it held,
    and for each new key k in 1..|lines| it holds the LineHit of the line at
    0-based position k-1; nothing else enters.
   */
  lemma {:induction false} ScanLines(tokens: TokenSet, lines: seq<string>, needles: seq<string>)
    requires |lines| < 0x1_0000
    ensures forall k: uint32 ::
      Lookup(Scan(tokens, lines, needles), k) ==
        (if k in tokens then Some(tokens[k])
         else if 1 <= k as int <= |lines| then LineHit(lines[k as int - 1], needles, k)
         else None)
    decreases |lines|
  {
    if lines != [] {
      var n := |lines|;
      var lineIndex := ToUint16(n) as uint32;
      assert lineIndex as int == n;
      var front := lines[..n - 1];
      var s1 := InsertAll(tokens, Flatten(LineResults(lines[n - 1], needles, lineIndex)));
      ScanUnfold(tokens, lines, needles);
      InsertLineLookup(tokens, lines[n - 1], needles, lineIndex);
      ScanLines(s1, front, needles);
      var r := Scan(tokens, lines, needles);
      assert r == Scan(s1, front, needles);
      forall k: uint32
        ensures Lookup(r, k) ==
          (if k in tokens then Some(tokens[k])
           else if 1 <= k as int <= n then LineHit(lines[k as int - 1], needles, k)
           else None)
      {
        assert Lookup(r, k) ==
          (if k in s1 then Some(s1[k])
           else if 1 <= k as int <= n - 1 then LineHit(front[k as int - 1], needles, k)
           else None);
        assert Lookup(s1, k) ==
          (if k in tokens then Some(tokens[k]) else if k == lineIndex then LineHit(lines[n - 1], needles, lineIndex) else None);
        if k !in tokens && 1 <= k as int < n {
          assert front[k as int - 1] == lines[k as int - 1];
        }
      }
    }
  }

  /** From an empty set: line number k holds exactly the LineHit of line k, for every k. */
  lemma ScanFromEmpty(lines: seq<string>, needles: seq<string>)
    requires |lines| < 0x1_0000
    ensures var r := Scan(map[], lines, needles);
      KeyedByLine(r) &&
      forall k: uint32 :: Lookup(r, k) ==
        if 1 <= k as int <= |lines| then LineHit(lines[k as int - 1], needles, k) else None
  {
    ScanLines(map[], lines, needles);
  }

  /** Reference count: the number of lines that contain at least one needle. */
  function HitCount(lines: seq<string>, needles: seq<string>): (c: nat)
    ensures c <= |lines|
  {
    if lines == [] then 0
    else HitCount(lines[..|lines| - 1], needles) + (if HasHit(lines[|lines| - 1], needles) then 1 else 0)
  }

  /** The set grows by one for every line that contains some needle. */
  lemma {:induction false} ScanSize(tokens: TokenSet, lines: seq<string>, needles: seq<string>)
    requires |lines| < 0x1_0000
    requires forall k :: k in tokens ==> !(1 <= k as int <= |lines|)
    ensures |Scan(tokens, lines, needles)| == |tokens| + HitCount(lines, needles)
    decreases |lines|
  {
    if lines != [] {
      var n := |lines|;
      var lineIndex := ToUint16(n) as uint32;
      assert lineIndex as int == n;
      var s1 := InsertAll(tokens, Flatten(LineResults(lines[n - 1], needles, lineIndex)));
      InsertLine(tokens, lines[n - 1], needles, lineIndex);
      ScanSize(s1, lines[..n - 1], needles);
    }
  }

  /** The keys of `s` at or above `lo`. */
  ghost function KeysFrom(s: TokenSet, lo: nat): set<uint32>
  {
    set k | k in s && lo <= k as int
  }

  /** std::set iteration from line index `lo` upwards: the token of each stored line, ascending. */
  function AscendingFrom(s: TokenSet, lo: nat): seq<Token>
    requires lo <= 0x1_0000_0000
    decreases 0x1_0000_0000 - lo
  {
    if lo == 0x1_0000_0000 then []
    else
      var k := lo as uint32;
      (if k in s then [s[k]] else []) + AscendingFrom(s, lo + 1)
  }

  /** Only stored tokens are listed, each under a line index at or above `lo`. */
  lemma {:induction false} AscendingMembers(s: TokenSet, lo: nat)
    requires KeyedByLine(s)
    requires lo <= 0x1_0000_0000
    ensures forall i :: 0 <= i < |AscendingFrom(s, lo)| ==>
      var t := AscendingFrom(s, lo)[i];
      lo <= t.lineIndex as int && t.lineIndex in s && s[t.lineIndex] == t
    decreases 0x1_0000_0000 - lo
  {
    if lo < 0x1_0000_0000 {
      var k := lo as uint32;
      var head := if k in s then [s[k]] else [];
      var rest := AscendingFrom(s, lo + 1);
      AscendingMembers(s, lo + 1);
      var r := head + rest;
      assert AscendingFrom(s, lo) == r;
      forall i | 0 <= i < |r|
        ensures lo <= r[i].lineIndex as int && r[i].lineIndex in s && s[r[i].lineIndex] == r[i]
      {
        if i < |head| {
          assert r[i] == s[k];
        } else {
          assert r[i] == rest[i - |head|];
        }
      }
    }
  }

  /** Every stored token at or above `lo` is listed. */
  lemma {:induction false} AscendingComplete(s: TokenSet, lo: nat)
    requires lo <= 0x1_0000_0000
    ensures forall k :: k in s && lo <= k as int ==> s[k] in AscendingFrom(s, lo)
    decreases 0x1_0000_0000 - lo
  {
    if lo < 0x1_0000_0000 {
      var k := lo as uint32;
      var head := if k in s then [s[k]] else [];
      var rest := AscendingFrom(s, lo + 1);
      AscendingComplete(s, lo + 1);
      var r := head + rest;
      assert AscendingFrom(s, lo) == r;
      forall k' | k' in s && lo <= k' as int
        ensures s[k'] in r
      {
        if k' == k {
          assert r[0] == s[k'];
        } else {
          assert s[k'] in rest;
        }
      }
    }
  }

  /** The listing is strictly ascending in line index. */
  lemma {:induction false} AscendingSorted(s: TokenSet, lo: nat)
    requires KeyedByLine(s)
    requires lo <= 0x1_0000_0000
    ensures forall a, b :: 0 <= a < b < |AscendingFrom(s, lo)| ==>
      TokenLess(AscendingFrom(s, lo)[a], AscendingFrom(s, lo)[b])
    decreases 0x1_0000_0000 - lo
  {
    if lo < 0x1_0000_0000 {
      var k := lo as uint32;
      var rest := AscendingFrom(s, lo + 1);
      AscendingSorted(s, lo + 1);
      AscendingMembers(s, lo + 1);
      if k in s {
        var r := [s[k]] + rest;
        assert AscendingFrom(s, lo) == r;
        forall a, b | 0 <= a < b < |r|
          ensures TokenLess(r[a], r[b])
        {
          assert r[b] == rest[b - 1];
          assert lo + 1 <= rest[b - 1].lineIndex as int;
          if a > 0 {
            assert r[a] == rest[a - 1];
          } else {
            assert r[a].lineIndex == k;
          }
        }
      } else {
        var r := AscendingFrom(s, lo);
        assert r == rest;
        forall a, b | 0 <= a < b < |r|
          ensures TokenLess(r[a], r[b])
        {
          assert r[a] == rest[a] && r[b] == rest[b];
        }
      }
    }
  }

  /** The order output() prints the set in: ascending line index, every element once. */
  function InOrder(s: TokenSet): (r: seq<Token>)
    requires KeyedByLine(s)
    ensures forall t :: t in r <==> t in Elements(s)
    ensures forall a, b :: 0 <= a < b < |r| ==> TokenLess(r[a], r[b])
  {
    InOrderElements(s);
    AscendingSorted(s, 0);
    AscendingFrom(s, 0)
  }

  lemma InOrderElements(s: TokenSet)
    requires KeyedByLine(s)
    ensures forall t :: t in AscendingFrom(s, 0) <==> t in Elements(s)
  {
    var r := AscendingFrom(s, 0);
    AscendingMembers(s, 0);
    AscendingComplete(s, 0);
    forall t | t in Elements(s)
      ensures t in r
    {
      var k :| k in s && s[k] == t;
    }
    forall t | t in r
      ensures t in Elements(s)
    {
      var i :| 0 <= i < |r| && r[i] == t;
      var k := r[i].lineIndex;
      assert k in s && s[k] == t;
    }
  }

  /** Every stored line is listed exactly once. */
  lemma {:induction false} AscendingLength(s: TokenSet, lo: nat)
    requires KeyedByLine(s)
    requires lo <= 0x1_0000_0000
    ensures |AscendingFrom(s, lo)| == |KeysFrom(s, lo)|
    decreases 0x1_0000_0000 - lo
  {
    if lo == 0x1_0000_0000 {
      assert KeysFrom(s, lo) == {};
    } else {
      var k := lo as uint32;
      AscendingLength(s, lo + 1);
      if k in s {
        assert KeysFrom(s, lo) == KeysFrom(s, lo + 1) + {k};
      } else {
        assert KeysFrom(s, lo) == KeysFrom(s, lo + 1);
      }
    }
  }

  /** output() prints size() entries: one per stored line. */
  lemma InOrderLength(s: TokenSet)
    requires KeyedByLine(s)
    ensures |InOrder(s)| == |s|
  {
    AscendingLength(s, 0);
    AllKeysFromZero(s);
  }

  lemma AllKeysFromZero(s: TokenSet)
    ensures KeysFrom(s, 0) == s.Keys
  {
  }

  /**
    The std::transform of parallel_search: slot j of a vector sized to the
    needle list receives the search result of a Searcher built for needle j.
    Each slot is written by its own index, so the parallel policy does not
    change the outcome, and the slots are filled here one after another.
   */
  method SearchLine(line: string, needles: seq<string>, lineIndex: uint32, algorithm: uint8)
    returns (lineTokensList: seq<seq<Token>>)
    ensures lineTokensList == LineResults(line, needles, lineIndex)
  {
    ghost var slots := LineResults(line, needles, lineIndex);
    var lineTokens := new seq<Token>[|needles|];
    for j := 0 to |needles|
      invariant lineTokens[..j] == slots[..j]
    {
      var searcher := new Scanning.Searcher(line, needles[j], lineIndex, algorithm);
      var found := searcher.Search();
      assert found == slots[j];
      lineTokens[j] := found;
      assert lineTokens[..j + 1] == lineTokens[..j] + [found];
    }
    lineTokensList := lineTokens[..];
    assert lineTokensList == lineTokens[..|needles|];
  }

  /**
    Invoker after search_preproduction: the lines of the file, the needles
    generated from a valid mask, the algorithm id and the token set.
   */
  class Invoker {
    var lines: seq<string>
    var needles: seq<string>
    var tokens: TokenSet
    const algorithm: uint8

    ghost predicate Valid()
      reads this
    {
      KeyedByLine(tokens)
    }

    constructor(lines: seq<string>, needles: seq<string>, algorithm: uint8)
      ensures Valid()
      ensures this.lines == lines && this.needles == needles && this.algorithm == algorithm
      ensures tokens == map[]
    {
      this.lines := lines;
      this.needles := needles;
      this.algorithm := algorithm;
      tokens := map[];
    }

    /**
      parallel_search(): consume the lines from the back; each line's
      results, one vector per needle, are collected into the set.
     */
    method ParallelSearch()
      requires Valid()
      modifies this
      ensures Valid()
      ensures lines == [] && needles == old(needles)
      ensures tokens == Scan(old(tokens), old(lines), needles)
    {
      while lines != []
        invariant Valid()
        invariant needles == old(needles)
        invariant Scan(tokens, lines, needles) == Scan(old(tokens), old(lines), needles)
        decreases |lines|
      {
        ghost var before := tokens;
        ghost var pending := lines;
        ScanUnfold(tokens, lines, needles);
        var line := lines[|lines| - 1];
        var lineIndex := ToUint16(|lines|);
        lines := lines[..|lines| - 1];
        var collected := SearchLine(line, needles, lineIndex as uint32, algorithm);
        tokens := CollectTokens(tokens, collected);
        assert Scan(tokens, lines, needles) == Scan(before, pending, needles);
      }
    }
  }
}
