/**
  Definitions shared by both searchers of mtfind: the C++ fixed-width integers,
  the Token record, the searcher-selection switch and the naive substring
  search that std::search performs with std::default_searcher.
 */
module TextSearch {

  newtype uint8 = x: int | 0 <= x < 0x100
  newtype uint16 = x: int | 0 <= x < 0x1_0000
  newtype uint32 = x: int | 0 <= x < 0x1_0000_0000

  datatype Option<T> = None | Some(value: T)

  /** The value a C++ conversion of a non-negative number to uint16_t keeps. */
  function ToUint16(x: nat): (r: uint16)
    ensures x < 0x1_0000 ==> r as int == x
  {
    (x % 0x1_0000) as uint16
  }

  /** One recorded match: the needle, its column and the index of its line. */
  datatype Token = Token(needle: string, symbolIndex: uint16, lineIndex: uint32)

  /** The three standard searchers the constructor's switch can assign. */
  datatype Strategy = BoyerMooreSearcher | BoyerMooreHorspoolSearcher | DefaultSearcher

  /** The bodies of the switch in source order: case 1, case 2, default. */
  const CaseBodies: seq<Strategy> := [BoyerMooreSearcher, BoyerMooreHorspoolSearcher, DefaultSearcher]

  /** The body the switch jumps to for a given algorithm id. */
  function CaseLabel(algorithm: uint8): nat
  {
    if algorithm == 1 then 0 else if algorithm == 2 then 1 else 2
  }

  /**
    The assignments the switch executes: no case ends with `break`, so control
    runs from the selected label through every later body.
   */
  function SwitchRun(algorithm: uint8): seq<Strategy>
  {
    CaseBodies[CaseLabel(algorithm)..]
  }

  /** The searcher left in place once the switch is done: whatever the id, default_searcher. */
  function SelectStrategy(algorithm: uint8): (s: Strategy)
    ensures s == DefaultSearcher
  {
    var run := SwitchRun(algorithm);
    run[|run| - 1]
  }

  /** True when `needle` occurs in `line` starting at position `p`. */
  predicate MatchAt(line: string, needle: string, p: nat)
  {
    p + |needle| <= |line| && line[p..p + |needle|] == needle
  }

  /**
    std::search(begin + start, end, default_searcher(needle)): the first
    position at or after `start` where `needle` occurs, or `|line|` (the end
    iterator) when there is none.
   */
  function FindFrom(line: string, needle: string, start: nat): (p: nat)
    requires start <= |line|
    ensures start <= p <= |line|
    ensures p < |line| ==> MatchAt(line, needle, p)
    ensures forall q :: start <= q < p ==> !MatchAt(line, needle, q)
    decreases |line| - start
  {
    if start == |line| then |line|
    else if MatchAt(line, needle, start) then start
    else FindFrom(line, needle, start + 1)
  }

  /**
    Reference definition: every start position in `from .. |line|-1` at which
    `needle` occurs, in increasing order, overlapping occurrences included.
   */
  function Occurrences(line: string, needle: string, from: nat): (r: seq<nat>)
    requires from <= |line|
    ensures forall k :: 0 <= k < |r| ==> from <= r[k] < |line| && MatchAt(line, needle, r[k])
    ensures forall p {:trigger p in r} :: from <= p < |line| && MatchAt(line, needle, p) ==> p in r
    ensures forall a, b :: 0 <= a < b < |r| ==> r[a] < r[b]
    decreases |line| - from
  {
    if from == |line| then []
    else (if MatchAt(line, needle, from) then [from] else []) + Occurrences(line, needle, from + 1)
  }

  /** Skipping positions where nothing matches does not change the occurrences still ahead. */
  lemma {:induction false} SkipNonMatches(line: string, needle: string, from: nat, p: nat)
    requires from <= p <= |line|
    requires forall q :: from <= q < p ==> !MatchAt(line, needle, q)
    ensures Occurrences(line, needle, from) == Occurrences(line, needle, p)
    decreases p - from
  {
    if from < p {
      SkipNonMatches(line, needle, from + 1, p);
    }
  }

  /** The token recorded for a match at `position`, whose column is `position + base` as a uint16_t. */
  function TokenAt(needle: string, position: nat, base: nat, lineIndex: uint32): Token
  {
    Token(needle, ToUint16(position + base), lineIndex)
  }

  /** One token per position, in order. */
  function ToTokens(positions: seq<nat>, needle: string, base: nat, lineIndex: uint32): (ts: seq<Token>)
    ensures |ts| == |positions|
    ensures forall k :: 0 <= k < |ts| ==> ts[k] == TokenAt(needle, positions[k], base, lineIndex)
  {
    if positions == [] then []
    else [TokenAt(needle, positions[0], base, lineIndex)] + ToTokens(positions[1..], needle, base, lineIndex)
  }

  /**
    The tokens a searcher records for `needle` in `line` when its cursor
    starts at `from`: one per occurrence, with column `position + base`
    (base 1 in mtfind.cpp, 0 in the draft), truncated to 16 bits.
   */
  function TokensFrom(line: string, needle: string, lineIndex: uint32, from: nat, base: nat): seq<Token>
    requires from <= |line|
  {
    ToTokens(Occurrences(line, needle, from), needle, base, lineIndex)
  }

  /** The tokens from a position at which the needle occurs: that match's token, then the rest. */
  lemma TokensFromMatch(line: string, needle: string, lineIndex: uint32, from: nat, base: nat)
    requires from < |line| && MatchAt(line, needle, from)
    ensures TokensFrom(line, needle, lineIndex, from, base) ==
      [TokenAt(needle, from, base, lineIndex)] + TokensFrom(line, needle, lineIndex, from + 1, base)
  {
    var rest := Occurrences(line, needle, from + 1);
    assert Occurrences(line, needle, from) == [from] + rest;
    assert ([from] + rest)[1..] == rest;
  }

  /**
    One step of a searcher's loop: jumping to the next match (FindFrom) and
    recording it loses no token, and there is none left once FindFrom
    reaches the end.
   */
  lemma TokensFromNext(line: string, needle: string, lineIndex: uint32, from: nat, base: nat)
    requires from <= |line|
    ensures var next := FindFrom(line, needle, from);
      TokensFrom(line, needle, lineIndex, from, base) ==
        if next == |line| then []
        else [TokenAt(needle, next, base, lineIndex)] + TokensFrom(line, needle, lineIndex, next + 1, base)
  {
    var next := FindFrom(line, needle, from);
    SkipNonMatches(line, needle, from, next);
    if next < |line| {
      TokensFromMatch(line, needle, lineIndex, next, base);
    }
  }

  /**
    One iteration of a searcher's loop as an equation on the tokens still to
    be recorded: with `acc` recorded so far and the cursor at `cursor`, the
    find either reaches the end of the line, and nothing is left, or records
    the token of the match it found and resumes one position past its start.
   */
  lemma SearchStep(line: string, needle: string, lineIndex: uint32, cursor: nat, base: nat, acc: seq<Token>)
    requires cursor <= |line|
    ensures var next := FindFrom(line, needle, cursor);
      next == |line| ==>
        acc + TokensFrom(line, needle, lineIndex, cursor, base) ==
        acc + TokensFrom(line, needle, lineIndex, next, base)
    ensures var next := FindFrom(line, needle, cursor);
      next < |line| ==>
        acc + TokensFrom(line, needle, lineIndex, cursor, base) ==
        (acc + [TokenAt(needle, next, base, lineIndex)]) + TokensFrom(line, needle, lineIndex, next + 1, base)
  {
    var next := FindFrom(line, needle, cursor);
    TokensFromNext(line, needle, lineIndex, cursor, base);
    if next == |line| {
      NothingLeft(line, needle, lineIndex, cursor, base);
    } else {
      RecordOne(acc, TokenAt(needle, next, base, lineIndex), TokensFrom(line, needle, lineIndex, next + 1, base));
    }
  }

  /** Once the find reaches the end of the line, no token is left either way. */
  lemma NothingLeft(line: string, needle: string, lineIndex: uint32, cursor: nat, base: nat)
    requires cursor <= |line|
    requires TokensFrom(line, needle, lineIndex, cursor, base) == []
    ensures TokensFrom(line, needle, lineIndex, cursor, base) == TokensFrom(line, needle, lineIndex, |line|, base)
  {
    assert Occurrences(line, needle, |line|) == [];
  }

  /** Recording one token moves it from the tokens still to come to those recorded. */
  lemma RecordOne(acc: seq<Token>, t: Token, rest: seq<Token>)
    ensures acc + ([t] + rest) == (acc + [t]) + rest
  {
  }

  /** Every recorded token carries the searcher's needle and line index. */
  lemma TokensCarryNeedle(line: string, needle: string, lineIndex: uint32, from: nat, base: nat)
    requires from <= |line|
    ensures var ts := TokensFrom(line, needle, lineIndex, from, base);
      forall k :: 0 <= k < |ts| ==> ts[k].needle == needle && ts[k].lineIndex == lineIndex
  {
  }

  /** No token is recorded exactly when the needle does not occur at or after `from`. */
  lemma TokensEmptyIff(line: string, needle: string, lineIndex: uint32, from: nat, base: nat)
    requires from <= |line|
    ensures TokensFrom(line, needle, lineIndex, from, base) == [] <==>
      forall p :: from <= p < |line| ==> !MatchAt(line, needle, p)
  {
    var occ := Occurrences(line, needle, from);
    if occ != [] {
      assert MatchAt(line, needle, occ[0]);
    } else {
      forall p | from <= p < |line|
        ensures !MatchAt(line, needle, p)
      {
        assert p !in occ;
      }
    }
  }

  /** While no column wraps, column `c` means the needle occurs at position `c - base`, at or after `from`. */
  lemma TokensColumnsMatch(line: string, needle: string, lineIndex: uint32, from: nat, base: nat)
    requires from <= |line|
    requires |line| + base <= 0x1_0000
    ensures var ts := TokensFrom(line, needle, lineIndex, from, base);
      forall k :: 0 <= k < |ts| ==>
        from + base <= ts[k].symbolIndex as int < |line| + base &&
        MatchAt(line, needle, ts[k].symbolIndex as int - base)
  {
    ColumnsAreShiftedOccurrences(line, needle, lineIndex, from, base);
  }

  /** While no column wraps, the columns are strictly increasing. */
  lemma TokensColumnsIncrease(line: string, needle: string, lineIndex: uint32, from: nat, base: nat)
    requires from <= |line|
    requires |line| + base <= 0x1_0000
    ensures var ts := TokensFrom(line, needle, lineIndex, from, base);
      forall a, b :: 0 <= a < b < |ts| ==> ts[a].symbolIndex < ts[b].symbolIndex
  {
    ColumnsAreShiftedOccurrences(line, needle, lineIndex, from, base);
  }

  /**
    While no column wraps, every position at or after `from` where the needle
    occurs is reported, overlapping occurrences included.
   */
  lemma TokensColumnsComplete(line: string, needle: string, lineIndex: uint32, from: nat, base: nat)
    requires from <= |line|
    requires |line| + base <= 0x1_0000
    ensures var ts := TokensFrom(line, needle, lineIndex, from, base);
      forall p :: from <= p < |line| && MatchAt(line, needle, p) ==>
        exists k :: 0 <= k < |ts| && ts[k].symbolIndex as int == p + base
  {
    ColumnsAreShiftedOccurrences(line, needle, lineIndex, from, base);
    var occ := Occurrences(line, needle, from);
    var ts := TokensFrom(line, needle, lineIndex, from, base);
    forall p | from <= p < |line| && MatchAt(line, needle, p)
      ensures exists k :: 0 <= k < |ts| && ts[k].symbolIndex as int == p + base
    {
      assert p in occ;
      var k :| 0 <= k < |occ| && occ[k] == p;
      assert ts[k].symbolIndex as int == p + base;
    }
  }

  lemma ColumnsAreShiftedOccurrences(line: string, needle: string, lineIndex: uint32, from: nat, base: nat)
    requires from <= |line|
    requires |line| + base <= 0x1_0000
    ensures |TokensFrom(line, needle, lineIndex, from, base)| == |Occurrences(line, needle, from)|
    ensures forall k :: 0 <= k < |Occurrences(line, needle, from)| ==>
      TokensFrom(line, needle, lineIndex, from, base)[k].symbolIndex as int == Occurrences(line, needle, from)[k] + base
  {
    var occ := Occurrences(line, needle, from);
    var ts := TokensFrom(line, needle, lineIndex, from, base);
    forall k | 0 <= k < |ts|
      ensures ts[k].symbolIndex as int == occ[k] + base
    {
      assert ts[k] == TokenAt(needle, occ[k], base, lineIndex);
    }
  }
}
