# mtfind matching engine in Dafny

mtfind searches a text file for a mask: a pattern of at most 100
characters in which up to two `?` each stand for any printable ASCII
character other than `?`. It prints one result per line that matches,
giving the line number, the column and the matched literal. This project
models the engine of `mtfind.cpp` and the earlier draft scanner in
`mtfind/mtfind.cpp`, and proves properties of both.

- `text_search.dfy` (module `TextSearch`) holds what both searchers share:
  - the C++ fixed-width integers, with uint16_t truncation written out (`ToUint16`);
  - the `Token` record;
  - the searcher-selection `switch`;
  - std::search with std::default_searcher (`FindFrom`), plus a reference list of all match positions (`Occurrences`);
  - `TokensFrom`, the token list a scan of one line must produce.
- `needles.dfy` (module `Needles`) holds `NeedleMaker`: `getASCII` with its cached alphabet, `isValidMask` and `makeFromMask`. The recursive expansion is specified by `Expand`, `ExpandFrom` and `ExpandAt`, which follow the code's two loops and its recursion.
- `scanning.dfy` (module `Scanning`) holds the final `Searcher`, which reports 1-based columns.
- `coordinator.dfy` (module `Coordinator`) holds `Invoker::parallel_search` and its `collectTokens` lambda. The `std::set<Token>` is modelled as a `map` from line index to token, because `Token::operator<` compares only line indexes. `Scan` is `parallel_search` written as a value.
- `draft.dfy` (module `Draft`) holds the draft `Searcher`. Its cursor is a member and its columns are 0-based.

What the code does, and the model with it:
- **Expansion double-counts.** The outer loop of `makeFromMask` restarts the expansion at every `?` of the original mask. A mask with k wildcards therefore yields k!·94^k needles, and with two wildcards every combination appears twice.
- **The strategy switch falls through.** No case ends in `break`, so every algorithm id ends with `std::default_searcher`.
- **The set deduplicates by line only.** Because `operator<` compares line indexes only, the set keeps one token per line: the first one inserted.
- **Lines are numbered from 1.** A line is tagged with the vector size before `pop_back`, which is its 1-based position, truncated to uint16_t.
- **The empty mask is valid.** `isValidMask` accepts the empty mask. Its expansion is the empty needle, which matches at every position of every non-empty line.

## Model

| member | source | states |
|---|---|---|
| TextSearch.ToUint16 | mtfind.cpp:188 | Below 65536, converting to uint16_t keeps the value. |
| TextSearch.SelectStrategy | mtfind.cpp:240-249 | Cases 1 and 2 fall through to default, so the searcher left in place is `default_searcher` for every algorithm id. |
| TextSearch.FindFrom | mtfind.cpp:232-235 | std::search from `start` returns the least position at or after `start` where the needle occurs, or the end of the line when there is none. |
| TextSearch.Occurrences | mtfind.cpp:265-275 | Reference list of match positions: exactly the positions at or after `from` where the needle occurs, overlaps included, strictly increasing. |
| TextSearch.TokenAt | mtfind.cpp:271-272 | Definition of one recorded token: needle, column position + base as uint16_t, line index. ToTokens and the column lemmas state what it yields. |
| TextSearch.TokensFrom | mtfind.cpp:257-277 | Definition of the token list a scan from `from` records: ToTokens over Occurrences. Both searchers' Search methods are proved equal to it; TokensCarryNeedle, TokensEmptyIff and the column lemmas state its properties. |
| TextSearch.SkipNonMatches | mtfind.cpp:267 | Jumping the cursor over positions with no match loses no occurrence. |
| TextSearch.ToTokens | mtfind.cpp:271-272 | One token per position, in order. Each token's column is position + base, truncated to 16 bits. |
| TextSearch.TokensFromMatch | mtfind.cpp:269-273 | A match at the cursor is recorded, and the scan resumes one character past its start. |
| TextSearch.TokensFromNext | mtfind.cpp:265-275 | One loop iteration loses no token. The list is empty once the find reaches the end of the line. |
| TextSearch.SearchStep | mtfind.cpp:265-275 | One iteration of either searcher's loop: recorded tokens plus those still to come stay equal to the whole list, whether the find reaches the end or records a match and steps past it. |
| TextSearch.TokensCarryNeedle | mtfind.cpp:251-272 | Every token carries the searcher's needle and line index. |
| TextSearch.TokensEmptyIff | mtfind.cpp:265-276 | The result is empty iff the needle occurs nowhere at or after the start. This includes the empty line. |
| TextSearch.TokensColumnsMatch | mtfind.cpp:271-272 | While no column wraps, column c means the needle occurs at position c - base. |
| TextSearch.TokensColumnsIncrease | mtfind.cpp:265-275 | While no column wraps, the columns strictly increase. |
| TextSearch.TokensColumnsComplete | mtfind.cpp:273 | While no column wraps, every occurrence is reported, overlapping ones included. |
| TextSearch.ColumnsAreShiftedOccurrences | mtfind.cpp:271-272 | While no column wraps, token k's column is occurrence k + base. |
| Scanning.Searcher.constructor | mtfind.cpp:238-255 | Stores line, needle and line index. The searcher selected is `default_searcher` whatever the id. |
| Scanning.Searcher.Search | mtfind.cpp:257-277 | search() returns exactly `TokensFrom(line, needle, lineIndex, 0, 1)`: one token per occurrence with its 1-based column. |
| Needles.Alphabet | mtfind.cpp:84-89 | 94 characters, all printable and not `?`, in strictly ascending order. |
| Needles.AlphabetExactly | mtfind.cpp:84-89 | A character is in the alphabet iff its code is in 32..126 and it is not `?`. |
| Needles.NeedleMaker.GetAscii | mtfind.cpp:79-91 | Returns the alphabet and leaves it cached. A call with the cache already filled leaves it unchanged. |
| Needles.NeedleMaker.IsValidMask | mtfind.cpp:94-107 | True iff the mask has at most 100 characters and at most two `?`. The uint8_t counter never wraps. |
| Needles.NeedleMaker.MakeFromMask | mtfind.cpp:109-133 | The loops and recursion return exactly `Expand(mask)`. A mask with a `?` leaves the alphabet cached; a mask without one leaves the cache as it was. |
| Needles.NeedleMaker.ExpandWildcard | mtfind.cpp:115-124 | The inner loop at one `?` returns exactly `ExpandAt(mask, index, 0)` and leaves the alphabet cached. |
| Needles.WildCount | mtfind.cpp:99-105 | Definition of the number of `?` in a mask, the value `anyCounter` reaches. IsValidMask, WildCountReplace and the expansion lemmas are stated with it. |
| Needles.Expand | mtfind.cpp:109-133 | Definition of makeFromMask's result: the outer loop's needles, or `[mask]` when there are none. MakeFromMask is proved equal to it; ExpandLength, ExpandCount and ExpandMembers state its properties. |
| Needles.ExpandFrom | mtfind.cpp:112-127 | Definition of the outer loop from position i on: the expansion of each `?` of the original mask, concatenated. MakeFromMask's loop invariant is stated with it. |
| Needles.ExpandAt | mtfind.cpp:118-124 | Definition of the inner loop at one `?` from alphabet entry j on: the expansion of the mask with that `?` replaced, entry by entry. ExpandWildcard is proved equal to it. |
| Needles.ExpandFromStep | mtfind.cpp:112-127 | One iteration of the outer loop: a `?` appends its own expansion, any other character appends nothing. |
| Needles.WildCountReplace | mtfind.cpp:120-122 | Replacing one `?` with an alphabet character leaves one wildcard fewer, so the recursion terminates. |
| Needles.NoWildcardNeedle | mtfind.cpp:129-130 | A mask without `?` yields exactly `[mask]`. |
| Needles.ExpandLength | mtfind.cpp:112-125 | A mask with k wildcards yields k!·94^k needles. |
| Needles.ExpandCount | mtfind.cpp:112-125 | Every instance of the mask appears exactly k! times, and nothing else appears. |
| Needles.ExpandMembers | mtfind.cpp:115-124 | A needle is produced iff it is an instance of the mask. Needles have the mask's length and contain no `?`. |
| Needles.OneWildcardNeedles | mtfind.cpp:112-125 | One `?` gives exactly 94 needles, pairwise distinct. |
| Needles.TwoWildcardNeedles | mtfind.cpp:112-125 | Two `?` give 2·94·94 needles, and every combination appears exactly twice. |
| Coordinator.TokenLess | mtfind.cpp:196-198 | Definition of Token::operator<: line indexes only. InsertTokenElements and OnePerLine state the set behaviour it causes. |
| Coordinator.InsertToken | mtfind.cpp:348 | insert adds a token under its line index only if no token of that line is present. Stored tokens never change. |
| Coordinator.InsertTokenElements | mtfind.cpp:196-198 | Seen as a set of tokens: elements are unchanged when an equivalent one (same line) is present, otherwise `t` is added. |
| Coordinator.OnePerLine | mtfind.cpp:196-198 | The set holds at most one token per line index. |
| Coordinator.InsertAll | mtfind.cpp:345-349 | Inserting a sequence keeps every stored token and stores every line index seen, and nothing else. |
| Coordinator.InsertAllFirst | mtfind.cpp:345-349 | For a line not yet stored, the token kept is the first token of that line in insertion order. |
| Coordinator.InsertAllSameLine | mtfind.cpp:345-349 | Tokens of a single line add only the first one, and only if the line is new. |
| Coordinator.CollectTokens | mtfind.cpp:343-350 | collectTokens inserts every token of every slot, in slot order: `InsertAll(tokens, Flatten(lineTokensList))`. |
| Coordinator.SearchLine | mtfind.cpp:359-369 | std::transform fills exactly `LineResults(line, needles, lineIndex)`, the definition whose slot j is needle j's `TokensFrom(line, needle, lineIndex, 0, 1)`: the result a Searcher for that needle returns. |
| Coordinator.FirstHitNeedle | mtfind.cpp:359-369 | The least needle index with a match in the line. No earlier needle occurs. |
| Coordinator.LineHit | mtfind.cpp:343-371 | The token kept for a line, absent iff no needle occurs in it. |
| Coordinator.HasHitIff | mtfind.cpp:359-371 | A line has a hit iff some needle occurs at some position. |
| Coordinator.LineHitToken | mtfind.cpp:343-371 | The kept token carries the earliest matching needle in needle order, at its lowest 1-based column. No earlier needle occurs in the line. |
| Coordinator.FlattenLineResults | mtfind.cpp:343-369 | A line's tokens all carry its index. They are empty iff no needle occurs, and otherwise start with the first needle's first match. |
| Coordinator.InsertLine | mtfind.cpp:371 | Collecting one line stores its LineHit under its index, only if that index is new. |
| Coordinator.Scan | mtfind.cpp:352-372 | The loop as a value, popping from the back. It preserves one-token-per-line keying. |
| Coordinator.ScanUnfold | mtfind.cpp:354-357 | The last line is processed first, tagged with the size before the pop, as uint16_t. |
| Coordinator.ScanLines | mtfind.cpp:352-372 | With fewer than 65536 lines, key k holds the old token, else the LineHit of the line at 0-based position k-1. No other key appears. |
| Coordinator.ScanFromEmpty | mtfind.cpp:352-372 | From an empty set, line number k holds exactly the LineHit of line k. |
| Coordinator.HitCount | mtfind.cpp:377 | Reference count of the lines that contain some needle. |
| Coordinator.ScanSize | mtfind.cpp:377 | The set's size equals the number of lines containing some needle. |
| Coordinator.AscendingFrom | mtfind.cpp:378-379 | Definition of std::set iteration from line index lo upwards. AscendingMembers, AscendingComplete, AscendingSorted and AscendingLength state its properties. |
| Coordinator.AscendingMembers | mtfind.cpp:378-379 | Iteration lists only stored tokens. |
| Coordinator.AscendingComplete | mtfind.cpp:378-379 | Iteration lists every stored token. |
| Coordinator.AscendingSorted | mtfind.cpp:378-379 | Iteration is in strictly ascending line index. |
| Coordinator.AscendingLength | mtfind.cpp:377-379 | Iteration lists one entry per stored line index. |
| Coordinator.InOrder | mtfind.cpp:378-379 | The output order lists exactly the set's elements, by strictly ascending line index. |
| Coordinator.InOrderElements | mtfind.cpp:378-379 | Membership in the listing equals membership in the set. |
| Coordinator.InOrderLength | mtfind.cpp:377-379 | The count printed, size(), equals the number of entries listed. |
| Coordinator.Invoker.constructor | mtfind.cpp:298-338 | The state `search_preproduction` leaves: lines, needles, algorithm id and an empty set. |
| Coordinator.Invoker.ParallelSearch | mtfind.cpp:340-373 | Consumes every line, leaves the needles unchanged, and leaves the set equal to `Scan(old set, old lines, needles)`. |
| Draft.Searcher.constructor | mtfind/mtfind.cpp:113-132 | The cursor is at the start of the line. The switch falls through to `default_searcher` for every id. |
| Draft.Searcher.Search | mtfind/mtfind.cpp:134-149 | Returns one token per occurrence at or after the cursor, with 0-based columns, and leaves the cursor at the end of the line. |
| Draft.SearchTwice | mtfind/mtfind.cpp:137-147 | A fresh searcher reports `TokensFrom(line, needle, lineIndex, 0, 0)`. A second search of the same object finds nothing. |

## Left out

- **File loading.** `Separator` in both files, the draft's asynchronous polling loop with its console output, and `getline` are I/O. Lines are an input `seq<string>`.
- **Preparation threads.** `Invoker::search_preproduction` runs two threads, joins them and asserts. Its outcome is the input of `Invoker.constructor`: the loaded lines and the needles of a valid mask.
- **Parallel execution.** `std::execution::par` in `parallel_search` is concurrency. Each slot of the result vector is written only by its own needle, so `SearchLine` fills the slots one after another.
- **Command line and `main`.** `CmdArguments` and `main` in both files only pass values through. The default argument `algorithm = 0` of the draft constructor is not modelled; every id gives the same searcher anyway.
- **Printing.** `Invoker::output` and `operator<<` only print. `InOrder` models the order and the size they print; the text format is not modelled.
- **Library internals.** `std::boyer_moore_searcher` and `std::boyer_moore_horspool_searcher` are never the searcher that runs, so they appear only as `Strategy` values.
- **Dangling iterators.** Both searchers build `std::search` objects, and in the draft also the cursor, from iterators into by-value constructor parameters. The model searches the stored needle in the stored line, as the code intends.
- Coordinator.ScanLines: stated only for fewer than 65536 lines. Beyond that the uint16_t line index wraps, which `Scan` models, and lines then share keys. No characterisation of that case is proved.
- Coordinator.ScanSize: stated only for fewer than 65536 lines, for the same reason.
- Coordinator.LineHitToken: the exact 1-based column is stated only for lines shorter than 65536 characters. Longer lines wrap the uint16_t column, which `ToUint16` models.
- TextSearch.TokensColumnsMatch: stated only while the largest column fits in 16 bits (`|line| + base <= 65536`). Beyond that the columns wrap, which `ToUint16` models.
- TextSearch.TokensColumnsIncrease: stated only while the largest column fits in 16 bits, for the same reason.
- TextSearch.TokensColumnsComplete: stated only while the largest column fits in 16 bits, for the same reason.
- TextSearch.ColumnsAreShiftedOccurrences: stated only while the largest column fits in 16 bits, for the same reason.
- Coordinator.ScanFromEmpty: stated only for fewer than 65536 lines. Beyond that line numbers wrap as uint16_t and later lines share keys with earlier ones; `Scan` models that case but no lemma characterises it.
- **Bytes and characters.** A Dafny `string` stands for the bytes of a `std::string`, one `char` per byte. The 100-character limit of `isValidMask` and the columns of a token therefore count bytes, as the code does; no character decoding is modelled.
