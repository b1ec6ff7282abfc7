/**
  The line scanner of mtfind.cpp: a Searcher holds one line, one needle and
  the line's index, and reports every start position of the needle in the
  line as a 1-based column.
 */
module Scanning {

  import opened TextSearch

  class Searcher {
    const needle: string
    const source: string
    const lineIndex: uint32
    /** The searcher the constructor's switch leaves in place. */
    const strategy: Strategy

    constructor(source: string, needle: string, lineIndex: uint32, algorithm: uint8)
      ensures this.source == source && this.needle == needle && this.lineIndex == lineIndex
      ensures strategy == DefaultSearcher
    {
      strategy := SelectStrategy(algorithm);
      this.needle := needle;
      this.source := source;
      this.lineIndex := lineIndex;
    }

    /**
      search(): from the start of the line, find the next match; record its
      column (position + 1, as a uint16_t) and restart one character past the
      match start, so that overlapping matches are found too.
     */
    method Search() returns (tokens: seq<Token>)
      ensures tokens == TokensFrom(source, needle, lineIndex, 0, 1)
    {
      tokens := [];
      var cursor: nat := 0;
      while cursor != |source|
        invariant cursor <= |source|
        invariant tokens + TokensFrom(source, needle, lineIndex, cursor, 1) == TokensFrom(source, needle, lineIndex, 0, 1)
        decreases |source| - cursor
      {
        SearchStep(source, needle, lineIndex, cursor, 1, tokens);
        cursor := FindFrom(source, needle, cursor);
        if cursor != |source| {
          var symbolIndex := cursor;
          var token := TokenAt(needle, symbolIndex, 1, lineIndex);
          tokens := tokens + [token];
          cursor := cursor + 1;
        }
      }
    }
  }
}
