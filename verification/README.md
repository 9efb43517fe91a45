# fumadocs-org, modelled in Dafny

This project models the core of fumadocs-org, which lets a Fumadocs
documentation site use Org-mode files alongside MDX. The model covers:

- **The Org→MDX converter.** This is the part that runs before the Org
  parser:
  - keyword extraction, in its line-based, regex and cached variants;
  - default title and description;
  - the marker passes for `#+HTML:` lines, source blocks, drawers, example
    blocks, comment blocks and callout blocks;
  - the restore passes that turn markers back into Markdown or JSX;
  - the `\<`/`\>` unescape;
  - `#+INCLUDE:` expansion.
- **The reverse serializer.** This turns an MDX syntax tree back into Org
  text and frontmatter back into `#+KEY:` lines.
- **The integration with fumadocs-mdx:**
  - the file-pattern widening in `defineDocs`;
  - the `org-support` plugin;
  - the runtime `resolveFiles`;
  - the loader's validation errors and collection lookup;
  - the `org2mdx` script that regenerates `.org.mdx` files when their
    embedded MD5 checksum changes.

## Modelling choices

- **Strings** are `seq<char>`.
- **A JavaScript object used as a record** is an ordered list of key/value
  pairs with unique keys (`OrderedMap`), so insertion order and
  "last write wins" are explicit.
- **Each `String.prototype.replace` with a global regex** is a left-to-right
  scan. A matcher finds the leftmost match at a position (`Scanner.Hits`),
  and then the matches are spliced (`Scanner.Splice`).
- **Regex semantics are written out by hand.** Examples: the lazy
  `[\s\S]*?`, the `\s*` that may cross a line break, and the `m` flag's `$`.
- **Bugs are modelled twice.** Where the source behaves in a way its
  authors evidently did not intend (see "## Findings"), the main
  definitions follow the intended behaviour. A member whose name ends in
  `AsWritten` follows the source as it is, and a lemma relates the two.
- **Program parts are parameters.** The Org/Markdown pipeline (`unified`
  with its plugins), `htmlToJsx`, `parseTime`, the YAML writer, the file
  system and MD5 appear as function parameters or as maps.

## Modules

| file | module | models |
|---|---|---|
| wrappers.dfy | Wrappers | `Option` / `Result` |
| text.dfy | Text | character classes, ASCII case mapping, `trim`, `split`, `indexOf`, `replace` (first occurrence), number printing |
| ordered_map.dfy | OrderedMap | insertion-ordered records |
| constants.dfy | Constants | marker prefixes, skip set, callout map, language map, checkbox pattern |
| keywords.dfy | Keywords | the three keyword extractors, callout lookup, default title, defaults |
| keyword_cache.dfy | KeywordCache | the cached extractor of the `org2mdx` package |
| scanner.dfy | Scanner | global regex replace as scan + splice |
| markers.dfy | Markers | `PREFIX<digits>` markers and their restore pass |
| blocks.dfy | Blocks | the block context |
| html_blocks.dfy | HtmlBlocks | `#+HTML:` lines |
| code_blocks.dfy | CodeBlocks | nested `#+begin_src` blocks |
| drawer_blocks.dfy | DrawerBlocks | `:name:` … `:end:` drawers as accordions |
| regions.dfy | Regions | `#+begin_NAME` … `#+end_NAME` regions, comment removal |
| example_blocks.dfy | ExampleBlocks | example blocks and their fenced restore |
| callouts.dfy | Callouts | callout blocks and `<Callout>` restore |
| unescape.dfy | Unescape | the `\<`/`\>` unescape |
| includes.dfy | Includes | `#+INCLUDE:` expansion |
| serialize.dfy | Serialize | `convertOrgToMdx` in both versions |
| reverse.dfy | MdxToOrg | `convertMdxToOrg`, `astToOrg`, `childToOrg`, `mdxJsxToString` |
| file_patterns.dfy | FilePatterns | `extendFilePatterns`, `defineDocs`, `defineConfig` |
| plugin.dfy | OrgPlugin | the `org-support` plugin |
| runtime.dfy | Runtime | `doc`/`meta`/`docs`, `resolveFiles`, `createOrgSource` |
| loader.dfy | Loader | `ValidationError`, `validate`, `getCollectionConfig` |
| checksum.dfy | Checksum | the checksum rules of `scripts/org2mdx.ts` |

## Model

| member | source | states |
|---|---|---|
| Keywords.ParseKeywordLine | src/lib/org-mode/keywords.ts:14-17 | a line that matches `#+WORD:` yields a key made only of lower-case word characters |
| Keywords.KeywordLineParses | src/lib/org-mode/keywords.ts:14-17 | `#+WORD:rest` on one line yields the key `WORD` in lower case and the value `rest` trimmed |
| Keywords.NoColonNoKeyword | src/lib/org-mode/keywords.ts:14 | a word not directly followed by `:` is not a keyword line |
| Keywords.EmptyValueKept | src/lib/org-mode/keywords.ts:14-21 | `(.*)` admits an empty value, so `#+WORD:` records the key with the empty string |
| Keywords.ExtractFromLines | src/lib/org-mode/keywords.ts:7-27 | the extracted record has unique keys and never holds `options`, `latex_header` or `date` |
| Keywords.ExtractOrgKeywords | src/lib/org-mode/keywords.ts:7-27 | the same for the whole document after splitting at `\r?\n` |
| Keywords.ExtractLastWins | src/lib/org-mode/keywords.ts:13-23 | a key maps to `v` exactly when some line defines it with `v` and no later line defines it again |
| Keywords.SkippedKeysAbsent | src/lib/org-mode/constants.ts:58 | `date`, `options` and `latex_header` are never extracted, whatever the document says |
| Keywords.OneLineDocument | src/lib/org-mode/keywords.ts:11-24 | a document of one keyword line extracts to that one pair, or to nothing when the key is skipped |
| Keywords.HtmlDirectiveIsKeyword | src/lib/org-mode/keywords.ts:14-17 | an `#+HTML:` line is also read as the keyword `html` |
| Keywords.LastInlineBeforeIsLast | src/lib/org-mode/utils.ts:7 | the greedy `(.+)` ends at the last non-terminator before the line end |
| Keywords.RestOfLineGreedy | src/lib/org-mode/utils.ts:7 | `\s*(.+)$` matches exactly when some capture start exists; the capture starts at the greatest such start, as greedy `\s*` gives, and runs to the end of that line |
| Keywords.RestOfLineAfterSpaces | src/lib/org-mode/utils.ts:7 | after blanks, the capture runs from the first non-blank to the end of the line |
| Keywords.KeywordMatchAt | src/lib/org-mode/utils.ts:7 | a match ends after the position where it starts, and its key is a lower-case word |
| Keywords.AddKeyword | src/lib/org-mode/converter.ts:37-43 | adding a key keeps keys unique, sets the key, leaves other keys alone, and drops skipped keys when the skip set is used |
| Keywords.ScanKeywords | src/lib/org-mode/converter.ts:36-43 | the `exec` loop keeps a well-formed record well formed |
| Keywords.ExtractByRegex | src/lib/org-mode/utils.ts:6-18 | the regex extractor's record has unique keys, and with the skip set no skipped key |
| Keywords.TakenMatches | src/lib/org-mode/utils.ts:7-11 | the matches the `exec` loop takes lie in the text, in order, each starting at or after the end of the one before |
| Keywords.TakenMatchSound | src/lib/org-mode/utils.ts:7-11 | each match the loop takes is a keyword match at a line start, with its lower-cased key, trimmed value and end |
| Keywords.TakenMatchesComplete | src/lib/org-mode/utils.ts:7-11 | every keyword match at a line start that no taken match spans is itself taken |
| Keywords.ScanIsFold | src/lib/org-mode/converter.ts:36-43 | the loop assigns exactly the matches it takes, in order |
| Keywords.AddAllLastWins | src/lib/org-mode/converter.ts:36-43 | for a key not skipped, repeated assignment leaves the value of the last match with that key, or the starting value when none has it |
| Keywords.AddAllSkipped | src/lib/org-mode/converter.ts:39-42 | a skipped key keeps its starting value through the loop |
| Keywords.ExtractByRegexLastWins | src/lib/org-mode/utils.ts:6-18 | a key has value `v` exactly when it is not skipped, some taken match sets it to `v`, and no later taken match sets it again |
| Keywords.ScanSingleLineRest | src/lib/org-mode/utils.ts:7 | on one line, after the first position no match can start, because `^` needs a line start |
| Keywords.ScanWholeMatch | src/lib/org-mode/converter.ts:31-46 | a document that is one whole match extracts to that pair, less skipped keys |
| Keywords.RegexValueFromFollowingText | src/lib/org-mode/utils.ts:7-14 | `#+KEY: text` on one line extracts to the trimmed text |
| Keywords.RegexKeywordSwallowsNextLine | src/lib/org-mode/converter.ts:32 | `\s*` crosses the line break, so `#+KEY:` followed by a new line takes the next line as its value |
| Keywords.RegexNeedsValue | src/lib/org-mode/utils.ts:7 | `(.+)` needs a character, so `#+KEY:` alone extracts nothing with the regex extractors |
| Keywords.RegexTrailingSpaceValue | src/lib/org-mode/utils.ts:7-14 | `#+KEY: ` with a trailing blank extracts the key with an empty value, since `(.+)` takes the blank and `trim` empties it |
| Keywords.CalloutTypeOf | src/lib/org-mode/keywords.ts:32-43 | a callout type exists exactly when the lower-cased name is one of the six callout names, and then it is that name |
| Keywords.CalloutTypeAsWritten | src/lib/org-mode/keywords.ts:32-43 | the lookup as written also answers for names inherited from `Object.prototype` |
| Keywords.CalloutLookupFindsInheritedProperty | src/lib/org-mode/keywords.ts:42 | `constructor` and `__proto__` get a truthy non-callout value as written and none in the corrected lookup |
| Keywords.SeparatorsToSpaces | src/lib/org-mode/utils.ts:25 | `-` and `_` become blanks, every other character is kept |
| Keywords.CapitalizeWordStarts | src/lib/org-mode/utils.ts:26 | a character is upper-cased exactly when it is a word character at a `\b` word start |
| Keywords.GenerateDefaultTitle | src/lib/org-mode/utils.ts:23-27 | the title is as long as the file name, has no `-` or `_`, and word starts are capitalised |
| Keywords.DefaultTitleIdempotent | src/lib/org-mode/utils.ts:23-27 | generating a title from a title changes nothing |
| Keywords.DefaultTitleSplitsAtSeparator | src/lib/org-mode/utils.ts:23-27 | the title of `a-b`, `a_b` or `a b` is the title of `a`, a blank, and the title of `b` |
| Keywords.ApplyDefaults | src/lib/org-mode/serialize.ts:156-162 | a falsy title becomes the option or the generated title, a falsy description becomes the option or `Generated from Org-mode`, and nothing else changes |
| Keywords.NormalizeDate | src/lib/org-mode/serialize.ts:148-153 | a truthy date that parses is replaced by the formatted date, and everything else is kept |
| Keywords.DateBranchUnreachable | src/lib/org-mode/serialize.ts:142-153 | because `date` is skipped at extraction, the date step never changes the record |
| KeywordCache.ToInt32 | packages/org2mdx/src/keywords.ts:67 | `hash & hash` gives the 32-bit signed value congruent to its input modulo 2^32 |
| KeywordCache.HashStepIsMultiplyAdd | packages/org2mdx/src/keywords.ts:66-67 | `(hash << 5) - hash + c` wrapped to 32 bits equals `31*hash + c` wrapped |
| KeywordCache.ComputeHash | packages/org2mdx/src/keywords.ts:64-70 | the loop computes the hash fold over the whole content and stays a 32-bit value |
| KeywordCache.CacheKey | packages/org2mdx/src/keywords.ts:57-71 | content under 1000 characters is its own key; longer content gets a numeral key of at most 12 characters |
| KeywordCache.KeyDeterminesNonNumeralDocument | packages/org2mdx/src/keywords.ts:58-61 | a short key that is not a numeral is only produced by that very content |
| KeywordCache.NumeralKeyCollision | packages/org2mdx/src/keywords.ts:58-70 | a long document shares its key with the short document made of its hash's digits |
| KeywordCache.Evict | packages/org2mdx/src/keywords.ts:42-48 | with 50 or more entries the oldest is dropped; otherwise the cache is unchanged |
| KeywordCache.EvictAsWritten | packages/org2mdx/src/keywords.ts:42-48 | as written, the oldest entry is not dropped when its key is the empty string |
| KeywordCache.ExtractCached | packages/org2mdx/src/keywords.ts:11-52 | after a call the key maps to the returned keywords; a hit changes nothing; a miss evicts and then appends |
| KeywordCache.ExtractOrg | packages/org2mdx/src/keywords.ts:11-52 | on a miss the package's cached extractor returns the line-based extractor's result |
| KeywordCache.CacheStaysBounded | packages/org2mdx/src/keywords.ts:42-49 | the corrected cache keeps unique keys and at most 50 entries |
| KeywordCache.CachedExtractionFaithful | packages/org2mdx/src/keywords.ts:13-17 | when every entry holds its key's extraction, a short non-numeral document gets its own keywords from the cache |
| KeywordCache.SecondCallHits | packages/org2mdx/src/keywords.ts:13-17 | calling twice with the same content answers the second call from the cache, unchanged |
| KeywordCache.Feed | packages/org2mdx/src/keywords.ts:11-52 | any run of calls leaves the corrected cache with unique keys and at most 50 entries |
| KeywordCache.FeedAsWrittenKeepsEveryKey | packages/org2mdx/src/keywords.ts:42-49 | as written, when the first document is empty, distinct short documents are all kept in order |
| KeywordCache.EmptyKeyDefeatsBound | packages/org2mdx/src/keywords.ts:6-49 | as written, 51 distinct short documents starting with the empty one leave 51 entries in a cache meant to hold 50 |
| Constants.MarkerPrefixesDistinctCapitals | src/lib/org-mode/constants.ts:6-15 | there are eight marker prefixes, all distinct and all capital letters |
| Constants.HtmlMarkerInsideExportHtmlMarker | src/lib/org-mode/constants.ts:9-10 | `HTMLMARKER` occurs inside `EXPORTHTMLMARKER` but does not start it |
| Constants.SkipKeywordsExactly | src/lib/org-mode/constants.ts:58 | the skip set is exactly `options`, `latex_header`, `date` |
| Constants.CalloutTypeMapIdentity | src/lib/org-mode/constants.ts:61-68 | the callout map maps each of its six distinct names to itself |
| Constants.LanguageMappingsOnlyMath | src/lib/org-mode/constants.ts:71-73 | the only language mapping is `math` to `latex` |
| Constants.CheckboxAt | src/lib/org-mode/constants.ts:51 | a checkbox item has blank indent, a state among space, `X`, `-`, and a non-empty one-line text that runs to the line end |
| Constants.CheckboxStates | src/lib/org-mode/constants.ts:51 | an item written from its parts reads back as those parts exactly when its state is one of the three |
| Scanner.HitsAreScanned | src/lib/org-mode/blocks/html-blocks.ts:16 | the matches a global replace sees are each leftmost from where the previous one ended, with no match skipped between them |
| Scanner.ScannedIsHits | src/lib/org-mode/blocks/html-blocks.ts:16 | any list with that property is the scan's list, so the scan is the unique left-to-right match list |
| Scanner.SpliceOriginals | src/lib/org-mode/blocks/html-blocks.ts:16-22 | replacing every match with its own text gives the input back |
| Scanner.NumbersCount | src/lib/org-mode/converter.ts:135-152 | a counter bumped only for counted matches numbers match `j` with the count of counted matches before it |
| Markers.DigitRun | src/lib/org-mode/blocks/html-blocks.ts:35 | `(\d+)` takes the longest run of digits |
| Markers.MarkerStep | src/lib/org-mode/blocks/html-blocks.ts:34-43 | a marker at the front is replaced by its fill, and the pass continues after it |
| Markers.PlainText | src/lib/org-mode/blocks/html-blocks.ts:34-43 | text that holds no marker prefix passes through the restore unchanged |
| Markers.NoMarkerUnchanged | src/lib/org-mode/blocks/html-blocks.ts:34-43 | a text with no marker is left as it is |
| Markers.RestoreSplice | src/lib/org-mode/blocks/html-blocks.ts:13-43 | marking a scan's matches with numbered markers and then restoring replaces match `j` with the fill of index `k0+j`, when no digit follows a match |
| Markers.LoneMarkerIndex | src/lib/org-mode/converter.ts:192 | a lone marker yields its own index |
| HtmlBlocks.HtmlAt | src/lib/org-mode/blocks/html-blocks.ts:16 | a match starts at a line start with `#+html:` in any case, and its capture runs to the line end |
| HtmlBlocks.HtmlAtCapture | src/lib/org-mode/blocks/html-blocks.ts:16 | there is a match exactly when some capture start exists after `\s*`; the capture is the raw, untrimmed, non-empty single-line text from the greatest such start to where the match ends |
| HtmlBlocks.ProcessHtml | src/lib/org-mode/blocks/html-blocks.ts:9-25 | each `#+html:` line is spliced out for `HTMLMARKER<k>`, the trimmed capture is appended to the context with index `k` counted from 0, and nothing else in the context changes |
| HtmlBlocks.HtmlRoundTrip | src/lib/org-mode/blocks/html-blocks.ts:9-44 | processing then restoring with a fresh context puts `htmlToJsx` of each captured line where the line was |
| HtmlBlocks.StaleIndexWithUsedContext | src/lib/org-mode/blocks/html-blocks.ts:14-21 | the local counter restarts at 0, so with a context already holding entries the entries no longer sit at their marker's index |
| CodeBlocks.CloseFrom | src/lib/org-mode/blocks/code-blocks.test.ts:138-162 | a closing position is where an `#+end_src` occurs |
| CodeBlocks.CloseFromSpec | src/lib/org-mode/blocks/code-blocks.test.ts:138-162 | the block closes at the first `#+end_src` where the nesting count of begin and end tags returns to zero, and never if there is none |
| CodeBlocks.CodeAt | src/lib/org-mode/blocks/code-blocks.test.ts:5-106 | a block starts at `#+begin_src`, and the stored original is exactly the matched text |
| CodeBlocks.CodeAtSpec | src/lib/org-mode/blocks/code-blocks.test.ts:5-106 | a block matches exactly when its header line is valid and a balanced `#+end_src` exists |
| CodeBlocks.ProcessCode | src/lib/org-mode/blocks/code-blocks.test.ts:108-193 | each block's record is appended to the context after the existing ones, in order, and nothing else in the context changes |
| CodeBlocks.BodyBetweenFirstAndLastLine | src/lib/org-mode/blocks/code-blocks.test.ts:196-248 | the fenced body is the text between the header line and the closing line |
| CodeBlocks.RestoreOneMarker | src/lib/org-mode/blocks/code-blocks.test.ts:196-331 | a marker becomes a fence with the mapped language (`math` becomes `latex`), or the empty string for an unknown index |
| CodeBlocks.CodeRoundTrip | src/lib/org-mode/blocks/code-blocks.test.ts:333-425 | processing then restoring puts each block's fence where the block was |
| DrawerBlocks.CloseLine | src/lib/org-mode/blocks/drawer-blocks.test.ts:5-25 | the drawer closes at the first `:end:` line and at no earlier one |
| DrawerBlocks.DrawerAt | src/lib/org-mode/blocks/drawer-blocks.test.ts:5-25 | a drawer's original is the matched text, and its name is a word other than `end` |
| DrawerBlocks.DrawerShape | src/lib/org-mode/blocks/drawer-blocks.test.ts:5-25 | `:name:` on its own line, a body, and an `:end:` line form one drawer with that name and body |
| DrawerBlocks.DrawerNumbering | src/lib/org-mode/blocks/drawer-blocks.test.ts:48-80 | a converted drawer becomes an accordion item numbered by its place among converted drawers |
| DrawerBlocks.ReservedAreOriginals | src/lib/org-mode/blocks/drawer-blocks.test.ts:82-105 | reserved drawers are replaced by their own text |
| DrawerBlocks.OnlyReservedUnchanged | src/lib/org-mode/blocks/drawer-blocks.test.ts:82-105 | a document whose drawers are all reserved is left as it is |
| DrawerBlocks.TitleSplitsAtUnderscore | src/lib/org-mode/blocks/drawer-blocks.test.ts:27-46 | the title of `a_b` is the title of `a`, a blank, and the title of `b` |
| Regions.BodyStartSpec | src/lib/org-mode/converter.ts:118 | `\s*\n` before the body ends at the last line break of the leading blanks, as backtracking finds it |
| Regions.RegionAt | src/lib/org-mode/converter.ts:118 | a region's end lies after its start |
| Regions.RegionAtSpec | src/lib/org-mode/converter.ts:118 | the lazy body stops at the first closing tag: any admissible match ends no earlier than the one found |
| Regions.BodyLacksClose | src/lib/org-mode/converter.ts:118 | the body of a match holds no closing tag |
| Regions.NoLineBreakNoRegion | src/lib/org-mode/converter.ts:118 | without a line break after the opening tag there is no region |
| Regions.StripComments | src/lib/org-mode/converter.ts:126-131 | the text shrinks by exactly the total length of the removed comment blocks |
| Regions.SpliceEmptyLength | src/lib/org-mode/converter.ts:126-131 | removal shortens the text by exactly the removed blocks' lengths |
| Regions.CommentFreeUnchanged | src/lib/org-mode/converter.ts:126-131 | a text with no comment block is unchanged |
| ExampleBlocks.ProcessExamples | src/lib/org-mode/converter.ts:116-123 | each example block is spliced out for `EXAMPLEBLOCKMARKER<k>`, with its body stored at index `k` |
| ExampleBlocks.StripNewlines | src/lib/org-mode/converter.ts:194 | the result neither starts nor ends with a line break |
| ExampleBlocks.StripNewlinesInverse | src/lib/org-mode/converter.ts:194 | stripping leading and trailing line breaks from `\n^a + body + \n^b` gives back `body` when `body` neither starts nor ends with one |
| ExampleBlocks.RestoreExamplesAsWritten | src/lib/org-mode/converter.ts:191-196 | as written, the restore throws exactly when some marker's index has no stored block, and otherwise agrees with the corrected restore |
| ExampleBlocks.StrayMarkerThrows | src/lib/org-mode/converter.ts:192-193 | a stray `EXAMPLEBLOCKMARKER7` with no blocks throws as written and is dropped by the corrected restore |
| ExampleBlocks.ExampleRoundTrip | src/lib/org-mode/converter.ts:116-196 | processing then restoring puts a fence around each block's stripped body where the block was |
| Callouts.CalloutAt | src/lib/org-mode/converter.ts:136-137 | a callout match is a region whose closing tag repeats the opening name |
| Callouts.CalloutAtWholeWord | src/lib/org-mode/converter.ts:137 | `(\w+)` backtracks only to a whole word, so a match exists exactly for the full word after `#+begin_` |
| Callouts.ProcessCallouts | src/lib/org-mode/converter.ts:134-152 | exactly one entry is stored per region whose name is a callout type |
| Callouts.CalloutEntriesIndexed | src/lib/org-mode/converter.ts:141-147 | the entries are numbered `0, 1, …` in order |
| Callouts.EntryOfHit | src/lib/org-mode/converter.ts:138-151 | the `j`-th typed region gets the entry numbered by the typed regions before it, with its mapped type and trimmed body |
| Callouts.CalloutHitEntry | src/lib/org-mode/converter.ts:138-151 | the `j`-th typed region is replaced by `CALLOUTMARKER<n>`, where `n` is the entry that describes it |
| Callouts.UntypedUnchanged | src/lib/org-mode/converter.ts:150 | a text whose regions are all untyped is returned as it is, with no entries |
| Callouts.AsWrittenAgreesWithoutDollar | src/lib/org-mode/converter.ts:182-185 | without `$` in any element, the restore as written equals the corrected restore |
| Callouts.DollarsCollapse | src/lib/org-mode/converter.ts:182-185 | as written, a rendered `$$` comes out as a single `$` |
| Callouts.CalloutsInPlace | src/lib/org-mode/converter.ts:173-186 | markers woven between marker-free gaps are each replaced by their `<Callout>` element |
| Unescape.TwoPassesAreOne | src/lib/org-mode/converter.ts:202 | the two passes equal one pass that drops each backslash before `<` or `>` |
| Unescape.NoBackslashUnchanged | src/lib/org-mode/converter.ts:202 | text without a backslash is unchanged |
| Includes.IncludeTarget | src/lib/org-mode/serialize.ts:68-73 | a target is a non-empty name without quotes |
| Includes.IncludeTargetOf | src/lib/org-mode/serialize.ts:68-73 | `#+INCLUDE:` followed by blanks and a quoted name yields that name |
| Includes.LowerCaseDirectiveIgnored | src/lib/org-mode/serialize.ts:68 | the directive is case-sensitive, so `#+include:` is ignored |
| Includes.SharedName | src/lib/org-mode/serialize.ts:105-110 | the shared name replaces the final `.org` with `.shared.org.mdx` |
| Includes.EarlyOrgRewritten | src/lib/org-mode/serialize.ts:105-110 | as written, `a.orgs.org` becomes `a.shared.org.mdxs.org`, because `replace` rewrites the first `.org` |
| Includes.OnlyEndingAgrees | src/lib/org-mode/serialize.ts:105-110 | when `.org` occurs only at the end, the two names agree |
| Includes.ExpandLine | src/lib/org-mode/serialize.ts:70-122 | the corrected expansion of one line: a line that is not a directive is kept; how it relates to the source's expansion is stated by Includes.LineAsWrittenAgrees |
| Includes.ExpandLinesPointwise | src/lib/org-mode/serialize.ts:70-123 | each output line is the expansion of the input line at the same place |
| Includes.NoDirectiveUnchanged | src/lib/org-mode/serialize.ts:66-125 | a document without directives is unchanged, because splitting at `\n` and joining with `\n` is the identity when there is no `\r` |
| Includes.JoinSplitLines | src/lib/org-mode/serialize.ts:66-125 | joining the split lines with `\n` gives back a text without `\r` |
| Includes.SelfIncludeExpandedOnce | src/lib/org-mode/serialize.ts:76-94 | for any non-Org file not yet visited, the directive becomes the file's lines expanded with the file marked visited, and every directive in them that leads back to the file becomes the circular-include comment |
| Includes.SelfIncludeOneLine | src/lib/org-mode/serialize.ts:76-94 | a one-line non-Org file that includes itself expands to the circular-include comment for its name |
| Includes.SelfOrgIncludeTagged | src/lib/org-mode/serialize.ts:97-111 | in the corrected expansion, a one-line Org file that includes itself becomes the `<include>` tag for its shared name |
| Includes.ExpandLineAsWritten | src/lib/org-mode/serialize.ts:70-122 | the expansion as written, with a depth bound; a line that is not a directive is kept |
| Includes.SelfOrgIncludeDiverges | src/lib/org-mode/serialize.ts:90-103 | as written, an Org file that includes itself gives no result at any depth bound, because converting it restarts the expansion with nothing visited |
| Includes.LineAsWrittenAgrees | src/lib/org-mode/serialize.ts:70-122 | whenever the expansion as written finishes and no included Org name has `.org` before its ending, it equals the corrected expansion |
| Includes.LinesAsWrittenAgree | src/lib/org-mode/serialize.ts:73-122 | the same agreement, line by line over a list of lines |
| Includes.TextAsWrittenAgrees | src/lib/org-mode/serialize.ts:66-125 | the same agreement for a whole text |
| Serialize.ConvertOrgToMdx | src/lib/org-mode/serialize.ts:135-266 | the corrected converter: the frontmatter always has a truthy description and a title that is truthy or generated from the file name |
| Serialize.ConvertLegacy | src/lib/org-mode/converter.ts:89-208 | the corrected older converter: the frontmatter always has a truthy description |
| Serialize.ConvertBodyAsWritten | src/lib/org-mode/serialize.ts:171-260 | the body stages as written throw exactly when the restored text has an example marker with no block; otherwise, when no callout element holds `$`, the result is the corrected body |
| Serialize.BodyFrom | src/lib/org-mode/serialize.ts:249-260 | the example restore as written and the unescape fail exactly when the restore throws, and otherwise give the unescaped corrected restore |
| Serialize.ConvertOrgToMdxAsWritten | src/lib/org-mode/serialize.ts:135-266 | when the converter as written finishes without throwing, its keywords are the corrected converter's; with end-only `.org` include names and `$`-free callout elements, its whole result is too |
| Serialize.ConvertLegacyAsWritten | src/lib/org-mode/converter.ts:89-208 | when the older converter as written does not throw, its keywords are the corrected converter's; with `$`-free callout elements, its whole result is too |
| Serialize.WithKeywords | src/lib/org-mode/serialize.ts:249-265 | the conversion is built exactly when the body did not throw, from those keywords and that body |
| Serialize.KeywordsFromRootOnly | src/lib/org-mode/serialize.ts:142-162 | the frontmatter is the defaults applied to the keywords of the document before includes are expanded; the date step changes nothing |
| Serialize.SkippedKeysNeverInFrontmatter | src/lib/org-mode/serialize.ts:142-153 | the frontmatter never holds `options`, `latex_header` or `date` |
| Serialize.NoRegionsPassThrough | src/lib/org-mode/serialize.ts:171-210 | when the block passes leave no `#+begin_` and the rendered text has no example marker, the body is the restored rendering, unescaped |
| Serialize.SameBodyWithoutIncludes | src/lib/org-mode/serialize.ts:145 | with no include directive the two converters give the same Markdown |
| MdxToOrg.AstToOrg | src/lib/org-mode/converter.ts:243-314 | an unknown node type gives the empty string |
| MdxToOrg.JsxToString | src/lib/org-mode/converter.ts:341-359 | a JSX element opens with `<name` and closes with `</name>` |
| MdxToOrg.SeparatorAligned | src/lib/org-mode/converter.ts:291-310 | the header row and the separator line put their `|` in the same columns |
| MdxToOrg.StarsThenSpace | src/lib/org-mode/converter.ts:247-253 | a heading line starts with exactly `depth` stars |
| MdxToOrg.HeadingLevel | src/lib/org-mode/converter.ts:247-253 | a heading of depth `d` starts with exactly `d` stars followed by a blank |
| MdxToOrg.ListKindIgnored | src/lib/org-mode/converter.ts:258-265 | ordered and unordered lists print alike, and items start with `- ` |
| MdxToOrg.ChildWalkAgrees | src/lib/org-mode/converter.ts:319-336 | on inline content, `childToOrg` and `astToOrg` agree |
| MdxToOrg.BlockInsideJsxDropped | src/lib/org-mode/converter.ts:319-359 | a paragraph inside a JSX element is dropped by `childToOrg` |
| MdxToOrg.EmptyAttributeBare | src/lib/org-mode/converter.ts:346-347 | an attribute with an empty value prints bare, like one without a value |
| MdxToOrg.KeywordLineReadBack | src/lib/org-mode/converter.ts:222-224 | an emitted `#+KEY: value` line reads back as the same key and value |
| MdxToOrg.KeywordsRoundTrip | src/lib/org-mode/converter.ts:222-224 | emitted keyword lines, joined, extract back to the original frontmatter when keys are lower-case words and values are trimmed one-liners |
| FilePatterns.StripMarkdownExtension | src/core.ts:39-42 | a trailing `.mdx` or `.md` is removed, checking `.mdx` first; other patterns are kept |
| FilePatterns.ExtendPattern | src/core.ts:36-45 | a pattern with Markdown outside the brace group gives two entries, any other gives one, and the first entry is the pattern with `{mdx,md}` widened to `{mdx,md,org}` |
| FilePatterns.ExtendFilePatterns | src/core.ts:33-47 | the result has one more entry for each pattern that gains a twin |
| FilePatterns.ExtendAppend | src/core.ts:46 | the widening of a concatenation is the concatenation of the widenings |
| FilePatterns.ExtendCovers | src/core.ts:33-47 | every kept pattern is present, every brace pattern is widened, every twin is present, and every output comes from some input |
| FilePatterns.MdInDirectoryName | src/core.ts:39-44 | a pattern that does not end in `.md` gains `.org` after its full text |
| FilePatterns.AppDocsFiles | src/core.ts:22-24 | given patterns are widened one by one |
| FilePatterns.PackageDocsFiles | packages/fumadocs-org/src/core.ts:22-24 | with no `files` option, the default is `**/*.{mdx,md,org}` |
| FilePatterns.AppDefaultHasOrgTwice | src/core.ts:22-24 | the default widens to `**/*.mdx`, `**/*.org`, `**/*.md`, `**/*.org` |
| FilePatterns.BracePatternMatchesDefault | packages/fumadocs-org/src/core.ts:23 | widening the brace default leaves it unchanged |
| FilePatterns.DefineDocs | packages/fumadocs-org/src/core.ts:13-29 | the docs part's files are the widened patterns, defaulted when absent, and the rest is kept |
| FilePatterns.AppDefineDocs | src/core.ts:12-27 | the same for the application's copy, with its own default |
| FilePatterns.DefineConfig | packages/fumadocs-org/src/core.ts:54-59 | the Org plugin comes first, the user's plugins follow in order, and the rest of the configuration is kept |
| OrgPlugin.ExtendFileSupported | packages/fumadocs-org/src/plugin.ts:6-14 | the extended filter accepts a path exactly when the original does or the path ends in `.org` |
| OrgPlugin.EnhanceCollection | packages/fumadocs-org/src/plugin.ts:24-46 | doc collections and both parts of docs collections get the extended filter; other collections are unchanged |
| OrgPlugin.EnhanceCollections | packages/fumadocs-org/src/plugin.ts:20-51 | every collection is enhanced in place and no collection is added or lost |
| OrgPlugin.AcceptsOrgAndKeepsTheRest | packages/fumadocs-org/src/plugin.ts:6-14 | after enhancing, `.org` paths are accepted and every previously accepted path still is |
| OrgPlugin.EnhanceIdempotent | packages/fumadocs-org/src/plugin.ts:20-51 | enhancing twice accepts the same paths as enhancing once |
| Runtime.Assign | packages/fumadocs-org/src/runtime/next/index.ts:15-20 | object spread keeps keys unique and keeps existing keys in their places |
| Runtime.AssignGet | packages/fumadocs-org/src/runtime/next/index.ts:15-20 | after the spread, a key takes the later object's value when it has one, else the earlier one's |
| Runtime.Doc | packages/fumadocs-org/src/runtime/next/index.ts:10-23 | a page entry always carries the file's own `info`, whatever the data holds, and its keys stay unique |
| Runtime.DocFields | packages/fumadocs-org/src/runtime/next/index.ts:12-20 | every other field of a page is the data's when the data has it, and the default otherwise |
| Runtime.Meta | packages/fumadocs-org/src/runtime/next/index.ts:24-31 | a meta entry starts with the `info` key, and its keys stay unique |
| Runtime.MetaFields | packages/fumadocs-org/src/runtime/next/index.ts:24-31 | a meta field is the data's when the data has it; only a missing `info` is filled from the file |
| Runtime.ResolveFiles | packages/fumadocs-org/src/runtime/next/types.ts:57-79 | pages come first, then metas, each keeping its path, its absolute path and its data |
| Runtime.ResolveFilesLoop | packages/fumadocs-org/src/runtime/next/index.ts:81-103 | the loop version builds the same list as the functional one |
| Runtime.ResolveFilesSeparates | packages/fumadocs-org/src/runtime/next/index.ts:81-103 | the pages give back the docs and the metas give back the meta files |
| Runtime.SourcePaths | packages/fumadocs-org/src/runtime/next/index.ts:53-72 | in the source, each page is a page file with its file's absolute and relative path, and each meta file whose data has no own `info` has its file's absolute path |
| Loader.PathText | packages/fumadocs-org/src/loaders/org.ts:24 | an issue path is never printed empty: it is the dotted path whenever that is non-empty, and `*` otherwise |
| Loader.EmptyJoin | packages/fumadocs-org/src/loaders/org.ts:24 | the joined path is empty exactly for `[]` and `[""]` |
| Loader.NewValidationError | packages/fumadocs-org/src/loaders/org.ts:15-28 | the error keeps the title and the issues it was given |
| Loader.MessageLines | packages/fumadocs-org/src/loaders/org.ts:23-25 | split at line breaks, the message is the title line, a line starting with a blank and the first issue, and one line per further issue |
| Loader.FallbackLinesOf | packages/fumadocs-org/src/loaders/org.ts:43 | the fallback text is `[ORG] title:` followed by one `  - path: message` line per issue |
| Loader.Validate | packages/fumadocs-org/src/loaders/org.ts:51-93 | a factory is applied to the context first; a standard schema with issues fails, one without gives its value; a Zod schema whose `parseAsync` resolves gives the parsed value; a schema with no check passes the data through |
| Loader.ZodRejection | packages/fumadocs-org/src/loaders/org.ts:72-89 | a zod schema that rejects with errors fails with those issues, and other rejections are rethrown |
| Loader.EmptyIssueListFails | packages/fumadocs-org/src/loaders/org.ts:63-69 | a standard schema returning an empty issue list still fails validation, because an empty array is truthy |
| Loader.RelativePath | packages/fumadocs-org/src/loaders/org.ts:117-119 | the first occurrence of the working directory is removed, and then one leading `/` |
| Loader.RelativeUnderCwd | packages/fumadocs-org/src/loaders/org.ts:117-119 | a file under the working directory gets its path below it |
| Loader.DirList | packages/fumadocs-org/src/loaders/org.ts:127-130 | a missing directory becomes the single text `undefined`, because `startsWith(undefined)` searches for that text |
| Loader.MissingDirMatchesUndefined | packages/fumadocs-org/src/loaders/org.ts:127-131 | with no directory, only paths starting with `undefined` select the collection |
| Loader.ConfigOf | packages/fumadocs-org/src/loaders/org.ts:132-140 | doc collections give their own schema, docs collections give their docs part's, and other kinds give none |
| Loader.FindCollection | packages/fumadocs-org/src/loaders/org.ts:122-141 | a configuration is found exactly when some collection selects the path, and it is the first such one |
| Loader.GetCollectionConfig | packages/fumadocs-org/src/loaders/org.ts:98-150 | with no collections the result is null; otherwise it is the first-match lookup on the path relative to the working directory |
| Loader.EarlierCollectionWins | packages/fumadocs-org/src/loaders/org.ts:122-141 | when two collections match, the earlier one decides |
| Checksum.DigestAt | scripts/org2mdx.ts:23 | a match starts with `checksum:` at the given place and yields 32 lower-case hex digits |
| Checksum.FirstDigest | scripts/org2mdx.ts:23 | the digest found is at a match, and no match starts before it; no digest means no match anywhere |
| Checksum.EmbeddedChecksum | scripts/org2mdx.ts:18-25 | a checksum is found only in a file that exists, and it is 32 lower-case hex digits |
| Checksum.InjectChecksum | scripts/org2mdx.ts:87-90 | frontmatter starting with `---` gets the checksum comment after it; other frontmatter is unchanged |
| Checksum.EmbeddedRoundTrip | scripts/org2mdx.ts:18-94 | the checksum written into the generated file reads back as the same checksum |
| Checksum.MdxPathFor | scripts/org2mdx.ts:59-62 | a path ending in `.org` gets `.org.mdx` in place of its final `.org`; any other path is kept |
| Checksum.PathsInverse | scripts/org2mdx.ts:36-61 | the orphan test's `.org.mdx` to `.org` rewrite inverts the generated-path rewrite |
| Checksum.MdxPathsDistinct | scripts/org2mdx.ts:59-62 | distinct Org files get distinct generated paths |
| Checksum.ExistenceTestRedundant | scripts/org2mdx.ts:72 | a matching checksum already implies the generated file exists |
| Checksum.SyncOne | scripts/org2mdx.ts:57-101 | a step that does not throw adds at most the generated path; a throw writes nothing and reports the conversion's failure; a conversion that succeeds never throws; every other file keeps its text |
| Checksum.SyncOneSyncs | scripts/org2mdx.ts:57-101 | the Org file is kept, and after a step that did not throw its generated file carries the Org file's current checksum |
| Checksum.SyncOneIdempotent | scripts/org2mdx.ts:70-84 | a second step on the same file repeats the first outcome: a skip after a write, the same throw after a throw |
| Checksum.SyncAllSyncs | scripts/org2mdx.ts:57-102 | after a loop that ends without a throw every Org file's generated file is in sync |
| Checksum.SyncAllCompletes | scripts/org2mdx.ts:57-102 | when every listed Org file converts without throwing, the loop ends without a throw |
| Checksum.ThrowLeavesRestStale | scripts/org2mdx.ts:57-106 | a loop that ends in a throw has a listed Org file whose conversion threw, and its generated file and those of every Org file after it are as before the loop |
| Checksum.Cleanup | scripts/org2mdx.ts:33-55 | orphaned `.org.mdx` files, their `.md5sum`, and old `.org.md5sum` files are removed, and every other file is kept |
| Checksum.RegenerateOutcome | scripts/org2mdx.ts:27-106 | after any run every Org file is kept unchanged, every `.org.mdx` has its Org file, and no `.org.md5sum` is left; after a run without a throw every Org file is also in sync |
| Checksum.RegenerateThrowLeavesRestStale | scripts/org2mdx.ts:27-106 | a run that ends in a throw leaves the generated file of the Org file that threw, and of every Org file after it, as the clean-up left it |
| OrderedMap.Put | packages/fumadocs-org/src/runtime/next/index.ts:15-20 | assigning a key sets it, keeps the other keys, and appends only a new key |

## Left out

- Strings are sequences of code points, not UTF-16 units. Case mapping is
  ASCII-only, as for the keyword, tag and word characters the converter
  looks at.
- The parse-and-render pipeline is a parameter. This covers the `unified`
  processor with its Org, rehype, remark and GFM plugins, the caption,
  checkbox and table-alignment plugins, figure conversion, and
  `restoreCheckboxes`. The model says nothing about Markdown rendering.
- The `processBlocks`/`restoreBlocks` dispatcher is a parameter. The block
  index (`blocks/index.ts`) is not part of this model, so the order of the
  block passes is not fixed. The LaTeX, JSX and export block passes are
  not modelled beyond their marker constants.
- `htmlToJsx`, `parseTime`/`formatToISOString` and YAML frontmatter output
  (`gray-matter`) are parameters. The converters return the keyword record
  instead of its YAML text.
- Includes.ExpandLine: the `.org` branch's conversion of the included file
  and its write to disk are not modelled. The line becomes the `<include>`
  tag, and the file system and `path.resolve`/`dirname` are parameters.
  The corrected expansion always finishes. The expansion as written
  (`Includes.ExpandLineAsWritten`) does model the two nested expansions
  that the `.org` branch runs, but it keeps only whether they finish.
- Includes.ExpandLineAsWritten: a depth bound (`fuel`) stands in for
  termination. `None` means no result within that many nested file reads.
- Serialize.ConvertOrgToMdx and Serialize.ConvertLegacy are the corrected
  converters. The callout restore inserts each element literally, the
  example restore drops a marker that has no block, and the shared name
  rewrites the final `.org`. Serialize.ConvertOrgToMdxAsWritten and
  Serialize.ConvertLegacyAsWritten model the source's behaviour: `$`
  patterns expand, a stray example marker throws, and the first `.org` is
  rewritten.
- MdxToOrg.ConvertMdxToOrg: frontmatter values are strings. `gray-matter`
  returns YAML-typed values, and the template literal prints them through
  `String(value)`: a date as a long date string, a list comma-joined.
  These conversions are not modelled.
- Console warnings and `console.log` messages are left out. This includes
  the log's `replace('.org', '.org.mdx')`, which rewrites the first `.org`
  in the name.
- KeywordCache.CacheKey: JavaScript's `parseInt`/`toString` on 32-bit
  values are modelled exactly. The cache returns a copy of the record, so
  aliasing is not modelled.
- Keywords.CalloutTypeAsWritten: only `constructor` and `__proto__` are
  modelled among the names inherited from `Object.prototype`. The other
  inherited members (`toString`, `valueOf`, …) are not all-lower-case words
  and cannot come out of `toLowerCase`, except `constructor`.
- Keys named `__proto__` in keyword records are treated as ordinary keys.
  A JavaScript object assignment to them changes the prototype instead.
- The numbering of integer-like keys by `Object.entries` is not modelled.
  In JavaScript such keys come first, in numeric order; here a record
  keeps insertion order.
- DrawerBlocks.ProcessDrawers: the drawer source file is not part of this
  model. Its behaviour is taken from its tests, and the restore of drawers
  is the identity, as the tests show.
- CodeBlocks.ProcessCode: the code-block source file is not part of this
  model. Its behaviour, and that of the other `CodeBlocks` members, is
  taken from code-blocks.test.ts.
- MdxToOrg.JsxToString: JSX fragments (a null element name) and attribute
  values that are expressions are not modelled. Attribute values are
  strings or absent.
- Loader.Validate: the `loader()` entry point, importing the configuration
  module, the coloured output branch and the thrown error's stack are
  left out.
  - A schema that is a primitive, which makes `in` throw a `TypeError`, is
    not modelled.
  - Standard Schema path segments given as objects with a `key` are
    modelled as strings.
- Runtime.ResolveFiles: a file whose `info` is not a `FileInfo` is given
  absent paths, where JavaScript would read `undefined` or throw.
- Checksum.Regenerate:
  - Globbing is given as the list of Org files, and hidden files are not
    singled out.
  - The MD5 of the file's bytes is a parameter over its text.
  - `mkdirSync` and the file writes are a map update.
  - A conversion that throws is a `Failure` from the converter parameter:
    it ends the loop with the earlier writes kept, and `main`'s
    rejection is only logged. The `console.error` and `console.log`
    output is not modelled, and neither is a conversion that never
    finishes.

## Findings

| source | as written | input that shows it | evidently intended | confidence | as-written member | corrected member |
|---|---|---|---|---|---|---|
| packages/org2mdx/src/keywords.ts:42-48 | the oldest entry is deleted only when its key is truthy | 51 distinct short documents, the first one empty: the cache keeps 51 entries | the cache never holds more than 50 entries | high, not executed | KeywordCache.EmptyKeyDefeatsBound | KeywordCache.CacheStaysBounded |
| src/lib/org-mode/keywords.ts:32-43 | the map lookup also finds properties inherited from `Object.prototype` | `#+begin_constructor` … `#+end_constructor` becomes a callout of type `function Object() { [native code] }` | only the six callout names give a callout | high, not executed | Keywords.CalloutLookupFindsInheritedProperty | Keywords.CalloutTypeOf |
| src/lib/org-mode/converter.ts:191-196 | a marker with no stored block reads `.content` of `undefined` | a document whose text has `EXAMPLEBLOCKMARKER7` but no example block throws a `TypeError` | unknown markers are dropped, as the HTML restore does | medium, not executed | ExampleBlocks.StrayMarkerThrows | ExampleBlocks.ExampleRoundTrip |
| src/lib/org-mode/converter.ts:182-185 | the element is passed to `replace` as a replacement pattern, so `$` sequences are expanded | a callout whose rendered text holds `$$` comes out with `$` | the rendered callout text is inserted literally | high, not executed | Callouts.DollarsCollapse | Callouts.CalloutsInPlace |
| src/lib/org-mode/serialize.ts:105-110 | `replace('.org', …)` rewrites the first `.org` in the name | `#+INCLUDE: "a.orgs.org"` gives `a.shared.org.mdxs.org` | the final `.org` extension becomes `.shared.org.mdx` | high, not executed | Includes.EarlyOrgRewritten | Includes.SharedName |
| src/lib/org-mode/serialize.ts:90-103 | an included Org file is converted with `convertOrgToMdx`, whose include expansion starts again with nothing visited | `a.org` holding only `#+INCLUDE: "a.org"` never finishes | the circular-include check also holds across the conversion of an included Org file | medium, not executed | Includes.SelfOrgIncludeDiverges | Includes.SelfOrgIncludeTagged |
