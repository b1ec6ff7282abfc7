/**
  The earlier draft of the line scanner (mtfind/mtfind.cpp).  Its cursor is a
  member, so search() consumes the searcher.  Columns are reported 0-based,
  and the Token record has no ordering.
 */
module Draft {

  import opened TextSearch

  class Searcher {
    /** m_itCursor, as an offset from the start of the line. */
    var cursor: nat
    const source: string
    const needle: string
    const lineIndex: uint32
    /** The searcher the constructor's switch leaves in place. */
    const strategy: Strategy

    ghost predicate Valid()
      reads this
    {
      cursor <= |source|
    }

    constructor(source: string, needle: string, lineIndex: uint32, algorithm: uint8)
      ensures Valid()
      ensures this.source == source && this.needle == needle && this.lineIndex == lineIndex
      ensures strategy == DefaultSearcher
      ensures cursor == 0
    {
      strategy := SelectStrategy(algorithm);
      this.needle := needle;
      this.cursor := 0;
      this.source := source;
      this.lineIndex := lineIndex;
    }

    /**
      search(): from the current cursor, record the 0-based index of every
      match and step one character past its start; the cursor is left at
      the end of the line.
     */
    method Search() returns (tokens: seq<Token>)
      requires Valid()
      modifies this`cursor
      ensures Valid() && cursor == |source|
      ensures tokens == TokensFrom(source, needle, lineIndex, old(cursor), 0)
    {
      tokens := [];
      ghost var start := cursor;
      while cursor != |source|
        invariant start <= cursor <= |source|
        invariant tokens + TokensFrom(source, needle, lineIndex, cursor, 0) == TokensFrom(source, needle, lineIndex, start, 0)
        decreases |source| - cursor
      {
        SearchStep(source, needle, lineIndex, cursor, 0, tokens);
        cursor := FindFrom(source, needle, cursor);
        if cursor != |source| {
          var symbolIndex := cursor;
          var token := TokenAt(needle, symbolIndex, 0, lineIndex);
          tokens := tokens + [token];
          cursor := cursor + 1;
        }
      }
    }
  }

  /**
    A fresh draft searcher reports every occurrence of the needle with its
    0-based index; searching it a second time finds nothing, because the
    cursor already stands at the end of the line.
   */
  method SearchTwice(source: string, needle: string, lineIndex: uint32, algorithm: uint8)
    returns (first: seq<Token>, second: seq<Token>)
    ensures first == TokensFrom(source, needle, lineIndex, 0, 0)
    ensures second == []
  {
    var searcher := new Searcher(source, needle, lineIndex, algorithm);
    first := searcher.Search();
    second := searcher.Search();
  }
}
