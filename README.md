# PromptLoader, modelled in Dafny

This project models `PromptLoader`, the prompt catalogue of the third demo MCP
server (`demos/03-mcp-prompt-via-tool/final/prompts/loader.ts`). The loader
reads a directory of `.txt` prompt files. Each file is a YAML header between
two `---` lines, followed by the prompt text. The loader indexes the prompts by
the `name` field of their header and answers read-only queries over that index:
all supported languages, a prompt by name, the prompts for a language or a
category, and a listing of every prompt.

The model has six modules:

- `Wrappers`: the `Option` type. It stands for `undefined` results and for a
  header parser that throws.
- `JsString`: the JavaScript string operations the loader relies on. These are
  `startsWith`, `endsWith`, `indexOf`, `split`, `join` and `trim`, plus the
  UTF-16 code unit order used by the default `Array.prototype.sort`. It proves
  the facts the loader needs about them: `split` followed by `join` gives back
  the text, no piece of a `split` holds the separator, `trim` is fixed by its
  trimmable ends, and the order is a strict total order.
- `JsArray`: `filter` and the default `sort` of an array of strings. `filter`
  keeps every occurrence of each kept element and nothing else. Over a
  sequence without repeats, it is the unique order-keeping selection of the
  kept elements. `sort` gives a sorted permutation, and a strictly ascending list is
  determined by its elements.
- `JsMap`: JavaScript's `Map` with insertion order. Setting a key that is
  already present keeps that key's place in the order.
- `Loader`: the records, the handling of one file, the whole load as a
  specification function, and the class `PromptLoader`. The class's
  `prompts` field is the index. `LoadAllPrompts` is a loop proved equal to
  the specification function. The queries are proved against the contents of
  the index.
- `LoaderProperties`: how the index behaves across a load. A file that is
  skipped changes nothing. An unreadable file ends the load. The last prompt
  with a given name wins. Keys keep their order. Every indexed prompt comes
  from a file.

The file system and the YAML parser are inputs. The directory is a sequence of
`DirEntry` values. Each entry holds a file name and the text that reading the
file returns, or `None` when the read throws. A directory that cannot be read
is caught by the handler around the whole load and leaves the index as it
was, which is the same as an empty sequence. The YAML parser together with the
`as PromptMetadata` cast is a function `string -> Option<PromptMetadata>`.
`None` means the parser throws.

How one failure spreads follows the code. A header that fails to parse is
caught inside the loop, so only that file is skipped. A file that cannot be
read throws outside that inner `try`, so the error goes to the handler around
the whole loop. Loading then stops at that file, and the prompts already
indexed stay (`LoaderProperties.UnreadableFileEndsLoad`). So an unreadable
`.txt` file, unlike a bad header, ends the rest of the load.

## Model

| member | source | states |
|---|---|---|
| JsString.StartsWithMatches | demos/03-mcp-prompt-via-tool/final/prompts/loader.ts:35 | holds exactly when the prefix is no longer than the text and matches it character by character from the start |
| JsString.EndsWithMatches | demos/03-mcp-prompt-via-tool/final/prompts/loader.ts:30 | holds exactly when the suffix is no longer than the text and matches its last characters one by one |
| JsString.IndexOf | demos/03-mcp-prompt-via-tool/final/prompts/loader.ts:36 | the position returned is -1 or one at or after the start that leaves room for the separator before the end of the text |
| JsString.IndexOfOccurs | demos/03-mcp-prompt-via-tool/final/prompts/loader.ts:36 | a position other than -1 that `indexOf` returns is one where the separator occurs |
| JsString.IndexOfFindsFirst | demos/03-mcp-prompt-via-tool/final/prompts/loader.ts:36 | the separator occurs nowhere before the position `indexOf` returns, and nowhere at all when it returns -1, so `split` cuts at the first occurrence each time |
| JsString.PieceIsFree | demos/03-mcp-prompt-via-tool/final/prompts/loader.ts:36 | the piece that starts at a position runs to the first separator after it, so it holds no separator |
| JsString.SplitFrom | demos/03-mcp-prompt-via-tool/final/prompts/loader.ts:36 | splitting the rest of the text from a position gives at least one piece |
| JsString.SplitFromPiecesFree | demos/03-mcp-prompt-via-tool/final/prompts/loader.ts:36 | no piece of the rest of the text, split from a position, holds the separator |
| JsString.Split | demos/03-mcp-prompt-via-tool/final/prompts/loader.ts:36 | `split` gives at least one piece (`JoinSplit` gives the round trip) |
| JsString.SplitPiecesFree | demos/03-mcp-prompt-via-tool/final/prompts/loader.ts:36 | no piece that `split` gives holds the separator |
| JsString.JoinShape | demos/03-mcp-prompt-via-tool/final/prompts/loader.ts:40 | no pieces join to the empty text; otherwise the joined text is as long as the pieces plus one separator between each two, starts with the first piece, and has the separator right after it when there is a second piece |
| JsString.JoinSplit | demos/03-mcp-prompt-via-tool/final/prompts/loader.ts:36-40 | joining the pieces of `split(d)` with `d` gives back the original text |
| JsString.SplitFrontMatter | demos/03-mcp-prompt-via-tool/final/prompts/loader.ts:35-40 | for a text that starts with `---\n`: the first piece is empty; there are at least three pieces exactly when the delimiter occurs again; the second piece is the text between the two delimiters; joining the pieces from the third on gives exactly the text after the second delimiter |
| JsString.SplitWithoutSecond | demos/03-mcp-prompt-via-tool/final/prompts/loader.ts:36-37 | without a second delimiter the text splits into just an empty piece and the rest, so the file has no body |
| JsString.SplitWithSecond | demos/03-mcp-prompt-via-tool/final/prompts/loader.ts:36-40 | with a second delimiter the pieces are the empty piece, the header, then pieces that rebuild the body |
| JsString.TrimmableChars | demos/03-mcp-prompt-via-tool/final/prompts/loader.ts:40 | the range test accepts exactly the ECMAScript WhiteSpace and LineTerminator code points, listed one by one in two tables |
| JsString.LeadingTrimmable | demos/03-mcp-prompt-via-tool/final/prompts/loader.ts:40 | the count covers exactly the leading run of whitespace and line terminators |
| JsString.TrailingTrimmable | demos/03-mcp-prompt-via-tool/final/prompts/loader.ts:40 | the count covers exactly the trailing run of whitespace and line terminators |
| JsString.Trim | demos/03-mcp-prompt-via-tool/final/prompts/loader.ts:40 | the result is a contiguous part of the text that starts and ends with no whitespace or line terminator, and everything cut off on either side is whitespace or a line terminator |
| JsString.TrimUnique | demos/03-mcp-prompt-via-tool/final/prompts/loader.ts:40 | any text made of a whitespace prefix, a trimmed middle and a whitespace suffix trims to exactly that middle |
| JsString.LexLessIrreflexive | demos/03-mcp-prompt-via-tool/final/prompts/loader.ts:62 | no code unit sequence comes before itself |
| JsString.LexLessTransitive | demos/03-mcp-prompt-via-tool/final/prompts/loader.ts:62 | the lexicographic order of code units is transitive |
| JsString.LexLessTotal | demos/03-mcp-prompt-via-tool/final/prompts/loader.ts:62 | of two different code unit sequences, one comes before the other |
| JsString.CodeUnitsPrefixFree | demos/03-mcp-prompt-via-tool/final/prompts/loader.ts:62 | the UTF-16 encoding of one character is never a proper prefix of another's, so the first character is decoded uniquely |
| JsString.Utf16Injective | demos/03-mcp-prompt-via-tool/final/prompts/loader.ts:62 | different strings have different UTF-16 encodings |
| JsString.CodeUnitLessIrreflexive | demos/03-mcp-prompt-via-tool/final/prompts/loader.ts:62 | no string sorts before itself |
| JsString.CodeUnitLessTransitive | demos/03-mcp-prompt-via-tool/final/prompts/loader.ts:62 | the default sort order on strings is transitive |
| JsString.CodeUnitLessTotal | demos/03-mcp-prompt-via-tool/final/prompts/loader.ts:62 | of two different strings, one sorts before the other |
| JsArray.Filter | demos/03-mcp-prompt-via-tool/final/prompts/loader.ts:70-71 | the result holds exactly the elements that are kept, in their original order, and is no longer than the input |
| JsArray.FilterCounts | demos/03-mcp-prompt-via-tool/final/prompts/loader.ts:70-71 | each element occurs in the result as often as in the input when it is kept, and not at all otherwise; with the order-keeping clause of `Filter`, this fixes the result |
| JsArray.FilterConcat | demos/03-mcp-prompt-via-tool/final/prompts/loader.ts:30 | filtering a concatenation gives the concatenation of the filtered parts |
| JsArray.FilterUnique | demos/03-mcp-prompt-via-tool/final/prompts/loader.ts:70-71 | over a sequence without repetitions, any order-keeping selection of exactly the kept elements is the filter's result |
| JsArray.InsertByCodeUnits | demos/03-mcp-prompt-via-tool/final/prompts/loader.ts:62 | inserting into a sorted sequence keeps it sorted and adds exactly that one element |
| JsArray.SortByCodeUnits | demos/03-mcp-prompt-via-tool/final/prompts/loader.ts:62 | the result is sorted in code unit order and is a permutation of the input |
| JsArray.PermutationKeepsDistinct | demos/03-mcp-prompt-via-tool/final/prompts/loader.ts:58-62 | rearranging a sequence without repetitions introduces none |
| JsArray.SortDistinctIsStrict | demos/03-mcp-prompt-via-tool/final/prompts/loader.ts:58-62 | sorting strings that are all different gives a strictly ascending sequence |
| JsArray.AscendingUnique | demos/03-mcp-prompt-via-tool/final/prompts/loader.ts:62 | two strictly ascending sequences with the same elements are equal, so the sorted language list is determined by the set of languages |
| JsMap.InsertionMap.Get | demos/03-mcp-prompt-via-tool/final/prompts/loader.ts:66 | a value is returned exactly when the key is stored, and it is the stored value |
| JsMap.InsertionMap.Set | demos/03-mcp-prompt-via-tool/final/prompts/loader.ts:42-45 | afterwards the key holds the new value, every other key keeps its value, the map stays valid, a present key keeps its place and a new key goes last |
| JsMap.InsertionMap.Values | demos/03-mcp-prompt-via-tool/final/prompts/loader.ts:70 | gives one value per key, in key order, each the key's stored value |
| JsMap.InsertionMap.Entries | demos/03-mcp-prompt-via-tool/final/prompts/loader.ts:80 | gives one key-value pair per key, in key order |
| JsMap.EmptyMap | demos/03-mcp-prompt-via-tool/final/prompts/loader.ts:19 | the new map is valid, has no keys and returns nothing for every key |
| Loader.ParseFile | demos/03-mcp-prompt-via-tool/final/prompts/loader.ts:35-49 | the four outcomes of one file, each exactly when its condition holds: no opening delimiter, no second delimiter, a header the parser rejects, or a prompt. A prompt's header is the parsed text between the delimiters, and its content is the trimmed text after the second delimiter |
| Loader.LoadFile | demos/03-mcp-prompt-via-tool/final/prompts/loader.ts:35-49 | one readable file keeps the index valid and keyed by prompt name |
| Loader.TxtFiles | demos/03-mcp-prompt-via-tool/final/prompts/loader.ts:30 | exactly the entries whose name ends in `.txt`, in listing order |
| Loader.LoadEntries | demos/03-mcp-prompt-via-tool/final/prompts/loader.ts:30-54 | loading a sequence of files keeps the index valid and keyed by prompt name |
| Loader.LoadAll | demos/03-mcp-prompt-via-tool/final/prompts/loader.ts:26-55 | the whole load keeps the index valid and keyed by prompt name |
| Loader.LanguagesOf | demos/03-mcp-prompt-via-tool/final/prompts/loader.ts:58-61 | a language is gathered exactly when some prompt lists it |
| Loader.LanguagesOfExtend | demos/03-mcp-prompt-via-tool/final/prompts/loader.ts:59-60 | visiting one more prompt adds exactly that prompt's languages |
| Loader.IndexLanguages | demos/03-mcp-prompt-via-tool/final/prompts/loader.ts:59-60 | the languages gathered from the map's values are exactly the languages of the stored prompts |
| Loader.ValuesDistinct | demos/03-mcp-prompt-via-tool/final/prompts/loader.ts:42-45 | a well-formed index holds no prompt twice, since each prompt is stored under its own name and each name is listed once |
| Loader.QueryIsFilter | demos/03-mcp-prompt-via-tool/final/prompts/loader.ts:69-77 | any order-keeping selection of the index's values that holds exactly the stored prompts passing a test is the filtered values, so the contracts of the two filtering queries fix their results |
| Loader.ValuesAreStored | demos/03-mcp-prompt-via-tool/final/prompts/loader.ts:70 | the map's values are exactly its stored prompts |
| Loader.PromptLoader.constructor | demos/03-mcp-prompt-via-tool/final/prompts/loader.ts:19-24 | a new loader has an empty, valid index |
| Loader.PromptLoader.LoadAllPrompts | demos/03-mcp-prompt-via-tool/final/prompts/loader.ts:26-55 | the loop leaves the index equal to the whole-load specification applied to the old index, and keeps it valid |
| Loader.PromptLoader.GetAllSupportedLanguages | demos/03-mcp-prompt-via-tool/final/prompts/loader.ts:57-63 | the result is strictly ascending in code unit order, with no duplicates, and holds a language exactly when some indexed prompt lists it |
| Loader.PromptLoader.GetPromptByName | demos/03-mcp-prompt-via-tool/final/prompts/loader.ts:65-67 | a prompt is returned exactly when one is stored under the name; it is the stored one and carries that name |
| Loader.PromptLoader.GetPromptsByLanguage | demos/03-mcp-prompt-via-tool/final/prompts/loader.ts:69-72 | the result keeps index order and holds exactly the stored prompts whose languages include the language |
| Loader.PromptLoader.GetPromptsByCategory | demos/03-mcp-prompt-via-tool/final/prompts/loader.ts:74-77 | the result keeps index order and holds exactly the stored prompts with that category; prompts without a category never match |
| Loader.PromptLoader.ListAllPrompts | demos/03-mcp-prompt-via-tool/final/prompts/loader.ts:79-84 | one entry per indexed prompt, in index order; each name is the key the prompt is stored under and equals its header's name; the header is the stored one; no name repeats |
| LoaderProperties.LoadEntriesSkips | demos/03-mcp-prompt-via-tool/final/prompts/loader.ts:35-50 | a readable file that yields no prompt can be removed from any position without changing the result |
| LoaderProperties.LoadEntriesStops | demos/03-mcp-prompt-via-tool/final/prompts/loader.ts:32 | nothing after an unreadable file is loaded |
| LoaderProperties.LoadEntriesAppend | demos/03-mcp-prompt-via-tool/final/prompts/loader.ts:30-51 | loading readable files and then more files is the same as loading them all in one pass |
| LoaderProperties.TxtFilesConcat | demos/03-mcp-prompt-via-tool/final/prompts/loader.ts:30 | selecting `.txt` names from a concatenation selects from each part |
| LoaderProperties.TxtFilesOne | demos/03-mcp-prompt-via-tool/final/prompts/loader.ts:30 | a single entry is selected exactly when its name ends in `.txt` |
| LoaderProperties.PassedOverFileIsIgnored | demos/03-mcp-prompt-via-tool/final/prompts/loader.ts:30-50 | a file that is not `.txt`, or is readable but has no opening delimiter, no second delimiter or a header that fails to parse, leaves the result unchanged wherever it sits in the listing |
| LoaderProperties.UnreadableFileEndsLoad | demos/03-mcp-prompt-via-tool/final/prompts/loader.ts:30-54 | a `.txt` file that cannot be read ends the load: the result is what the files before it produce |
| LoaderProperties.LoadOneFile | demos/03-mcp-prompt-via-tool/final/prompts/loader.ts:30-49 | one file changes the index only when it is a readable `.txt` file with both delimiters and a header that parses; the prompt is then stored under its header's name with the trimmed body, and every other name keeps its prompt |
| LoaderProperties.LastPromptOfANameWins | demos/03-mcp-prompt-via-tool/final/prompts/loader.ts:42-45 | a later file that yields a prompt replaces whatever an earlier file stored under that name, leaves every other name alone, and keeps an existing name in its place |
| LoaderProperties.LoadKeepsKeyOrder | demos/03-mcp-prompt-via-tool/final/prompts/loader.ts:42-45 | loading never removes or reorders keys: the old keys stay first, in order |
| LoaderProperties.LoadedPromptsComeFromFiles | demos/03-mcp-prompt-via-tool/final/prompts/loader.ts:30-51 | every prompt in the index after a load was there before or is the prompt parsed from a readable file of the listing |
| LoaderProperties.SupportedLanguagesMerge | demos/03-mcp-prompt-via-tool/final/prompts/loader.ts:57-63 | for prompts with languages `[c, b]` and `[b, a]`, where a < b < c (for example python/javascript and javascript/go), the sorted, deduplicated language list is exactly `[a, b, c]` |

## Left out

- File system: reading the directory and the files (`fs.readdir`, `fs.readFile`, `path.join`) is an input sequence of entries. The `promptsDir` field, and the constructor's default of `process.cwd()/prompts` when no directory (or an empty string) is given, are not modelled because they only choose which directory is read.
- Asynchrony: `async`/`await` is not modelled. Each load runs its files in listing order to completion, and overlapping loads on one loader are not modelled.
- Logging: `console.error` is not modelled. The source logs in two places. The `HeaderError` outcome of `ParseFile` marks the first (a header that does not parse). The end of the load at an unreadable file marks the second (an unreadable directory or file).
- YAML: `js-yaml` is a parameter. A header that parses to `null` or `undefined` (an empty header, `~`, `null`) makes `metadata.name` throw inside the inner `try`. The file is then logged and skipped, which is the parser's `None` (`HeaderError`). A result that is not `null` but is not a well-formed `PromptMetadata` record is not modelled, because the TypeScript cast does not check it. Examples are a number, a string, an array, or a record with a missing or non-string `name` or a non-array `languages`. The source would store such a result under `undefined`, or under whatever `.name` gives.
- Text encoding: files are taken to be decoded already. Strings are sequences of Unicode scalar values, so lone surrogates in JavaScript strings are not represented. The sort order is modelled through the UTF-16 encoding of these strings.
- Sorting algorithm: `Array.prototype.sort` does not fix an algorithm. The model uses insertion sort and proves only its result (sorted, a permutation, and unique once it is strictly ascending).
- Aliasing: queries return prompt values. They are not references to the objects stored in the index, so a caller mutating a returned prompt is not modelled.
- JsArray.Filter: its own contract does not fix how often a kept element occurs. `JsArray.FilterCounts` proves that for every input, and together with the order-keeping clause of `Filter` it fixes the result. It is a separate lemma so that the proofs that only use `Filter` stay small.
- The server files that use the loader (`server.ts`, its tool handlers and the other demo servers) are not part of this model.
