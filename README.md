# Keyword mapping of the Notion standards download script

`scripts/downloadNotionStandards.ts` queries two Notion databases, standards and
jocondes. From each query result it builds a JSON object that maps every
keyword to the public URLs of the pages tagged with it. This project models the
pure transform between the query result and that object, and proves what the
transform computes.

The transform has two stages:

- **Mapping extraction**, `getDatabaseMappingInfo`. A page whose
  "Keywords to match (standard-jit)" rich-text list is empty is dropped. Every
  other page becomes an entry pairing its keywords with its URL. The keywords are
  the plain text of the page's first rich-text item, split on `'\n'`. Nothing is
  trimmed, folded or de-duplicated, so empty keywords are kept.
- **Inverted index**, inside `updateMapping`. `uniq(flatten(...))` lists the
  distinct keywords in order of first appearance. A `reduce` then uses
  `Object.assign` to store, under each keyword, the URLs of the entries whose
  keyword list contains it, in entry order.

The project has three modules and a file of worked examples:

- `Seqs` (`seqs.dfy`) holds the generic operations: JavaScript's array `filter`
  and lodash's `flatten` and `uniq`.
- `Strings` (`strings.dfy`) holds `split` and `join` on a one-character
  separator.
- `NotionMapping` (`notion_mapping.dfy`) holds the pages, the entries, the
  JavaScript object and both stages.
- `MappingExamples` (`examples_mapping.dfy`) holds concrete runs.

The JavaScript object is modelled as `KeywordMapping(keys, urls)`:

- `keys` lists the object's own keys in insertion order.
- `urls` maps each key to its value.

`Object.assign` with one new property becomes `Assign`. An existing key keeps its
place and a new key goes last.

The reduce is proved correct for any keyword list, duplicates included
(`BuildMapping`). Run over the flattened keyword lists without `uniq`, it builds
the same object (`UniqBeforeReduceRedundant`), because `Object.assign` on a key
that already exists keeps that key's position. So the `uniq` only spares
repeated work.

Each source expression of the chain has its own small definition, used by the
members in the table below:

- `HasKeywords` is the `filter` test of line 50.
- `PageKeywords` is the `split` of line 52.
- `ToMappingInfo` is one step of the second `map`, lines 51-54.
- `KeywordLists` is the `map` inside `flatten`, line 70.
- `WithKeyword` is the `filter` on `includes`, line 78.
- `PageUrls` is a one-pass reference definition of a key's URL list over the
  pages; it has no counterpart in the source.

## Model

| member | source | states |
|---|---|---|
| Seqs.Filter | scripts/downloadNotionStandards.ts:50 | The filtered list is no longer than the input. An element is in it exactly when it is in the input and satisfies the predicate. |
| Seqs.FilterPositions | scripts/downloadNotionStandards.ts:50 | The filtered list is a subsequence of the input picked at strictly increasing positions, and every position whose element satisfies the predicate is picked. So the order is kept and nothing that passes is lost. |
| Seqs.FilterAppend | scripts/downloadNotionStandards.ts:50 | Filtering a concatenation is the concatenation of the filtered parts. |
| Seqs.Flatten | scripts/downloadNotionStandards.ts:70 | An element is in the flattened list exactly when it is in one of the inner lists. |
| Seqs.FlattenAppend | scripts/downloadNotionStandards.ts:70 | Flattening a concatenation is the concatenation of the flattened parts, so the items of each list keep their order and earlier lists come first. |
| Seqs.Uniq | scripts/downloadNotionStandards.ts:69-71 | The result has no duplicates, has the same elements as the input, and is no longer than it. |
| Seqs.UniqFirstAppearanceOrder | scripts/downloadNotionStandards.ts:69-71 | The distinct elements come in the order of their first occurrence in the input. |
| Seqs.UniqOfDistinct | scripts/downloadNotionStandards.ts:69-71 | A list without duplicates is unchanged, so `uniq` is idempotent. |
| Seqs.UniqCharacterised | scripts/downloadNotionStandards.ts:69-71 | Any list that has no duplicates, has the input's elements, and is ordered by first occurrence equals `Uniq` of the input. |
| Strings.Split | scripts/downloadNotionStandards.ts:52 | Splitting gives one more piece than there are separators, empty pieces included. No piece contains the separator. |
| Strings.JoinSplit | scripts/downloadNotionStandards.ts:52 | Joining the pieces of a split with `'\n'` gives back the original plain text. |
| Strings.SplitJoin | scripts/downloadNotionStandards.ts:52 | Splitting the join of at least one separator-free piece gives back the pieces. |
| NotionMapping.ToMappingInfos | scripts/downloadNotionStandards.ts:51-54 | The second `map` gives one entry per kept page, at the same index. The entry holds the page's split keywords and its URL. |
| NotionMapping.GetDatabaseMappingInfo | scripts/downloadNotionStandards.ts:40-55 | There are never more entries than pages. |
| NotionMapping.GetDatabaseMappingInfoPositions | scripts/downloadNotionStandards.ts:43-54 | Entry `j` comes from page `pos[j]`, which has keywords, and carries that page's split keywords and its own URL. The positions strictly increase, and every page with keywords has an entry. |
| NotionMapping.GetDatabaseMappingInfoAppend | scripts/downloadNotionStandards.ts:43-54 | Extraction works page by page: the entries of a concatenation are the concatenated entries. |
| NotionMapping.ResourceKeywords | scripts/downloadNotionStandards.ts:69-71 | The distinct keywords have no duplicates. A keyword is among them exactly when some entry lists it. |
| NotionMapping.ResourceKeywordsOrder | scripts/downloadNotionStandards.ts:69-71 | The distinct keywords are in order of first appearance in the flattened keyword lists. They are the only duplicate-free list of those keywords in that order. |
| NotionMapping.UrlsFor | scripts/downloadNotionStandards.ts:77-79 | A keyword's URL list is no longer than the list of entries. |
| NotionMapping.UrlsForPositions | scripts/downloadNotionStandards.ts:77-79 | URL `j` of keyword `k` is that of entry `pos[j]`, which lists `k`. The positions strictly increase, so each entry gives at most one URL and order is kept. No entry listing `k` is skipped. |
| NotionMapping.UrlsForMembership | scripts/downloadNotionStandards.ts:77-79 | A URL is in `k`'s list exactly when some entry lists `k` and has that URL. |
| NotionMapping.UrlsForAppend | scripts/downloadNotionStandards.ts:77-79 | A keyword's URL list over concatenated entries is the concatenation of its URL lists. |
| NotionMapping.Assign | scripts/downloadNotionStandards.ts:76-80 | `Object.assign` stores the value under the key and leaves every other key and value alone. An existing key keeps its place, a new key is appended, and the key order stays free of duplicates. |
| NotionMapping.BuildMapping | scripts/downloadNotionStandards.ts:73-81 | For any keyword list, the fold from `{}` gives an object whose keys are the list's distinct keywords in order of first appearance. Each key holds the URL list of its keyword. |
| NotionMapping.KeywordToResourceMapping | scripts/downloadNotionStandards.ts:69-81 | The keys are exactly the distinct keywords, inserted in their order. Each key holds the URLs of the entries listing it. |
| NotionMapping.UniqBeforeReduceRedundant | scripts/downloadNotionStandards.ts:69-81 | Running the reduce over the flattened keywords without `uniq` builds the same object: the same keys in the same order, with the same values. |
| NotionMapping.KeywordToResourceMappingEntries | scripts/downloadNotionStandards.ts:69-79 | A keyword is a key exactly when some entry lists it. A key's URL list is then non-empty and at most as long as the list of entries. |
| NotionMapping.UpdateMapping | scripts/downloadNotionStandards.ts:67-81 | The whole transform, extraction followed by the index. Its key order lists each key once. Which keys and values it holds is stated by `UpdateMappingKeys`, `UpdateMappingUrls` and `UpdateMappingUrlList`. |
| NotionMapping.SinglePageUrls | scripts/downloadNotionStandards.ts:43-54 | A single page gives its URL under `k` when it has keywords that include `k`, and nothing otherwise. |
| NotionMapping.UrlsInPageOrder | scripts/downloadNotionStandards.ts:43-81 | The URL list stored under `k` equals the one-pass reference list `PageUrls`: the URLs of the pages with keywords that list `k`, one per page, in page order. |
| NotionMapping.UpdateMappingUrlList | scripts/downloadNotionStandards.ts:43-81 | The value of each key of the whole transform is that reference list. |
| NotionMapping.UpdateMappingKeys | scripts/downloadNotionStandards.ts:43-81 | A keyword is a key of the whole transform exactly when some page with keywords lists it. |
| NotionMapping.UpdateMappingUrls | scripts/downloadNotionStandards.ts:43-81 | A URL is listed under a key exactly when some page with keywords lists that key and has that URL. A page without keywords puts its URL nowhere. |
| NotionMapping.PageWithoutKeywordsIgnored | scripts/downloadNotionStandards.ts:50 | Removing a page whose rich-text list is empty leaves the result unchanged. |
| NotionMapping.NoKeywordsGivesEmptyMapping | scripts/downloadNotionStandards.ts:50 | A query result in which no page has keywords gives the empty object. |
| MappingExamples.TwoPagesExample | scripts/downloadNotionStandards.ts:43-81 | Pages `("a\nb", u1)` and `("b", u2)` give `{a: [u1], b: [u1, u2]}`. |
| MappingExamples.TwoPagesExtraction | scripts/downloadNotionStandards.ts:43-54 | Extraction of those two pages gives the entries `(["a","b"], u1)` and `(["b"], u2)`. |
| MappingExamples.TwoEntriesIndex | scripts/downloadNotionStandards.ts:69-81 | The index of those two entries is `{a: [u1], b: [u1, u2]}`, with keys in the order `a`, `b`. |
| MappingExamples.TwoEntriesFirstKey | scripts/downloadNotionStandards.ts:73-81 | After its first keyword, the fold holds `{a: [u1]}`. |
| MappingExamples.TwoEntriesKeywords | scripts/downloadNotionStandards.ts:69-71 | Their distinct keywords are `a`, `b`: the second `b` is dropped. |
| MappingExamples.TwoEntriesUrls | scripts/downloadNotionStandards.ts:77-79 | Their URL lists are `[u1]` for `a` and `[u1, u2]` for `b`. |
| MappingExamples.EmptyRichTextExample | scripts/downloadNotionStandards.ts:50 | A single page with an empty rich-text list gives `{}`. |
| MappingExamples.EmptyKeywordExample | scripts/downloadNotionStandards.ts:43-81 | The text `"x\n"` gives the keys `x` and the empty string, both holding the page's URL. |
| MappingExamples.EmptyKeywordExtraction | scripts/downloadNotionStandards.ts:52 | `"x\n"` splits into `x` and an empty keyword. |
| MappingExamples.EmptyKeywordIndex | scripts/downloadNotionStandards.ts:69-81 | An entry listing `x` and the empty string gives both keys its URL, in that order. |
| MappingExamples.EmptyKeywordKeywords | scripts/downloadNotionStandards.ts:69-71 | The distinct keywords of that entry are its own two keywords. |

## Left out

- The Notion query and its filter parameters (lines 31-38 and 62-65) are a network call into a foreign client library. The model takes the list of pages the query returned as its input.
- The `as any as KeywordFieldType` cast (line 46) is an unchecked assumption about the shape at run time. A page is modelled as already decoded: the keyword property's rich-text items, with only `plain_text` kept, and the page URL. A page whose property has another shape, where the script would throw, is not represented.
- The `dotenv` and `process.env` configuration (lines 11-16) is ambient environment state: the mapping directory and the database ids.
- `fs.writeFileSync` and `JSON.stringify` (lines 83-86) are file output and serialisation. The model ends at the object. JavaScript enumerates integer-like keys such as `"12"` first, in numeric order, whatever their insertion order; that ordering is not modelled. Neither is the special assignment behaviour of a `"__proto__"` keyword.
- The async wrapper that runs both updates (lines 89-117) is control flow around input and output: `try`/`catch`, `console.error`, and a final `throw` when either update failed.
- Strings are sequences of characters. JavaScript splits on UTF-16 code units, which agrees for the separator `'\n'`.
