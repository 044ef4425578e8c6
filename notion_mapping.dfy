/**
  The transform of scripts/downloadNotionStandards.ts: from the pages a
  Notion database query returned to the keyword-to-URLs object that the
  script writes as JSON.

  Stage 1, `GetDatabaseMappingInfo`: drop the pages whose keyword property
  has no rich-text item, and turn each remaining page into its keyword list
  (the first item's plain text split on '\n') paired with its URL.
  Stage 2, `KeywordToResourceMapping`: the distinct keywords in order of first
  appearance, each mapped to the URLs of the pages that list it, in page
  order.
 */
module NotionMapping {
  import opened Seqs
  import opened Strings

  /** The separator between keywords inside the rich-text value. */
  const KEYWORD_SEPARATOR: char := '\n'

  /** One item of a rich-text property; only its `plain_text` is read. */
  datatype RichTextItem = RichTextItem(plainText: string)

  /**
    One page of the query result, reduced to what the script reads: the
    rich-text items of the property "Keywords to match (standard-jit)" and
    the page's public URL.
   */
  datatype Page = Page(keywordsField: seq<RichTextItem>, url: string)

  /** A page after extraction: its keywords and its URL. */
  datatype MappingInfo = MappingInfo(keywords: seq<string>, url: string)

  /**
    The JavaScript object the script builds: its own keys in insertion order
    and the value stored under each key.
   */
  datatype KeywordMapping = KeywordMapping(keys: seq<string>, urls: map<string, seq<string>>)

  /** The object `{}` the reduce starts from. */
  const EMPTY_MAPPING: KeywordMapping := KeywordMapping([], map[])

  /** An object's key order lists each of its keys exactly once. */
  ghost predicate WellFormed(m: KeywordMapping) {
    && NoDuplicates(m.keys)
    && forall k :: k in m.urls <==> k in m.keys
  }

  // ---------------------------------------------------------------------
  // Stage 1: mapping extraction
  // ---------------------------------------------------------------------

  /** The filter of `getDatabaseMappingInfo`: the rich-text list is not empty. */
  predicate HasKeywords(page: Page) {
    |page.keywordsField| != 0
  }

  /** The keywords of a page: its first rich-text item's plain text split on '\n'. */
  function PageKeywords(page: Page): seq<string>
    requires HasKeywords(page)
  {
    Split(page.keywordsField[0].plainText, KEYWORD_SEPARATOR)
  }

  /** The second `map` of `getDatabaseMappingInfo`, for one kept page. */
  function ToMappingInfo(page: Page): MappingInfo
    requires HasKeywords(page)
  {
    MappingInfo(PageKeywords(page), page.url)
  }

  /** The second `map` of `getDatabaseMappingInfo`, over the kept pages: one entry per page. */
  function ToMappingInfos(kept: seq<Page>): (r: seq<MappingInfo>)
    requires forall i :: 0 <= i < |kept| ==> HasKeywords(kept[i])
    ensures |r| == |kept|
    ensures forall i :: 0 <= i < |kept| ==> r[i] == ToMappingInfo(kept[i])
  {
    if kept == [] then [] else [ToMappingInfo(kept[0])] + ToMappingInfos(kept[1..])
  }

  /** `getDatabaseMappingInfo`: at most one entry per page. */
  function GetDatabaseMappingInfo(pages: seq<Page>): (r: seq<MappingInfo>)
    ensures |r| <= |pages|
  {
    var kept := Filter(pages, HasKeywords);
    assert forall i :: 0 <= i < |kept| ==> kept[i] in kept;
    ToMappingInfos(kept)
  }

  /**
    The result of `getDatabaseMappingInfo` is exactly one entry per page that
    has keywords, in page order: the entry at `j` comes from page `pos[j]`,
    the positions increase, and no page with keywords is skipped.
   */
  lemma GetDatabaseMappingInfoPositions(pages: seq<Page>) returns (pos: seq<nat>)
    ensures |pos| == |GetDatabaseMappingInfo(pages)|
    ensures forall j :: 0 <= j < |pos| ==>
      && pos[j] < |pages|
      && HasKeywords(pages[pos[j]])
      && GetDatabaseMappingInfo(pages)[j].keywords == PageKeywords(pages[pos[j]])
      && GetDatabaseMappingInfo(pages)[j].url == pages[pos[j]].url
    ensures StrictlyIncreasing(pos)
    ensures forall i :: 0 <= i < |pages| && HasKeywords(pages[i]) ==> i in pos
  {
    var kept := Filter(pages, HasKeywords);
    pos := FilterPositions(pages, HasKeywords);
    forall j | 0 <= j < |pos| ensures HasKeywords(pages[pos[j]]) {
      assert kept[j] in kept;
    }
  }

  /** Extraction works page by page: it distributes over concatenation. */
  lemma GetDatabaseMappingInfoAppend(a: seq<Page>, b: seq<Page>)
    ensures GetDatabaseMappingInfo(a + b) == GetDatabaseMappingInfo(a) + GetDatabaseMappingInfo(b)
  {
    FilterAppend(a, b, HasKeywords);
    var keptLeft, keptRight := Filter(a, HasKeywords), Filter(b, HasKeywords);
    assert forall i :: 0 <= i < |keptLeft| ==> keptLeft[i] in keptLeft;
    assert forall i :: 0 <= i < |keptRight| ==> keptRight[i] in keptRight;
    ToMappingInfosAppend(keptLeft, keptRight);
  }

  /** The per-page `map` distributes over concatenation. */
  lemma ToMappingInfosAppend(a: seq<Page>, b: seq<Page>)
    requires forall i :: 0 <= i < |a| ==> HasKeywords(a[i])
    requires forall i :: 0 <= i < |b| ==> HasKeywords(b[i])
    ensures ToMappingInfos(a + b) == ToMappingInfos(a) + ToMappingInfos(b)
  {
  }

  // ---------------------------------------------------------------------
  // Stage 2: inverted index
  // ---------------------------------------------------------------------

  /** `resourceMappingInfo.map(({ keywords }) => keywords)`. */
  function KeywordLists(infos: seq<MappingInfo>): seq<seq<string>> {
    seq(|infos|, i requires 0 <= i < |infos| => infos[i].keywords)
  }

  /**
    `uniq(flatten(...))`: the distinct keywords, which are exactly the
    keywords some entry lists.
   */
  function ResourceKeywords(infos: seq<MappingInfo>): (r: seq<string>)
    ensures NoDuplicates(r)
    ensures forall k :: k in r <==> exists i :: 0 <= i < |infos| && k in infos[i].keywords
  {
    var lists := KeywordLists(infos);
    assert forall i :: 0 <= i < |infos| ==> lists[i] == infos[i].keywords;
    Uniq(Flatten(lists))
  }

  /**
    The distinct keywords come in order of first appearance in the flattened
    keyword lists, and are the only duplicate-free sequence of those
    keywords in that order.
   */
  lemma ResourceKeywordsOrder(infos: seq<MappingInfo>)
    ensures FirstAppearanceOrdered(Flatten(KeywordLists(infos)), ResourceKeywords(infos))
    ensures forall r ::
      (&& NoDuplicates(r)
       && (forall k :: k in r <==> k in Flatten(KeywordLists(infos)))
       && FirstAppearanceOrdered(Flatten(KeywordLists(infos)), r))
      ==> r == ResourceKeywords(infos)
  {
    var keywords := Flatten(KeywordLists(infos));
    UniqFirstAppearanceOrder(keywords);
    forall r | NoDuplicates(r) && (forall k :: k in r <==> k in keywords) && FirstAppearanceOrdered(keywords, r)
      ensures r == ResourceKeywords(infos)
    {
      UniqCharacterised(keywords, r);
    }
  }

  /** `resourceMappingInfo.filter(({ keywords }) => keywords.includes(keyword))`. */
  function WithKeyword(infos: seq<MappingInfo>, k: string): seq<MappingInfo> {
    Filter(infos, (m: MappingInfo) => k in m.keywords)
  }

  /** The value stored under keyword `k`: at most one URL per entry. */
  function UrlsFor(infos: seq<MappingInfo>, k: string): (r: seq<string>)
    ensures |r| <= |infos|
  {
    var matching := WithKeyword(infos, k);
    seq(|matching|, i requires 0 <= i < |matching| => matching[i].url)
  }

  /**
    The URLs of `k` are exactly those of the entries listing `k`, one per
    entry and in entry order: the URL at `j` is that of entry `pos[j]`, the
    positions increase, and no entry listing `k` is skipped.
   */
  lemma UrlsForPositions(infos: seq<MappingInfo>, k: string) returns (pos: seq<nat>)
    ensures |pos| == |UrlsFor(infos, k)|
    ensures forall j :: 0 <= j < |pos| ==>
      pos[j] < |infos| && k in infos[pos[j]].keywords && UrlsFor(infos, k)[j] == infos[pos[j]].url
    ensures StrictlyIncreasing(pos)
    ensures forall i :: 0 <= i < |infos| && k in infos[i].keywords ==> i in pos
  {
    var matching := WithKeyword(infos, k);
    pos := FilterPositions(infos, (m: MappingInfo) => k in m.keywords);
    forall j | 0 <= j < |pos| ensures k in infos[pos[j]].keywords {
      assert matching[j] in matching;
    }
  }

  /** A URL is listed under `k` exactly when some entry listing `k` has that URL. */
  lemma UrlsForMembership(infos: seq<MappingInfo>, k: string, u: string)
    ensures u in UrlsFor(infos, k) <==> exists i :: 0 <= i < |infos| && k in infos[i].keywords && infos[i].url == u
  {
    var pos := UrlsForPositions(infos, k);
    var r := UrlsFor(infos, k);
    if u in r {
      var j :| 0 <= j < |r| && r[j] == u;
      assert k in infos[pos[j]].keywords && infos[pos[j]].url == u;
    }
    if i :| 0 <= i < |infos| && k in infos[i].keywords && infos[i].url == u {
      var j :| 0 <= j < |pos| && pos[j] == i;
      assert r[j] == u;
    }
  }

  /** The URL list is built entry by entry: it distributes over concatenation of the entries. */
  lemma UrlsForAppend(a: seq<MappingInfo>, b: seq<MappingInfo>, k: string)
    ensures UrlsFor(a + b, k) == UrlsFor(a, k) + UrlsFor(b, k)
  {
    FilterAppend(a, b, (m: MappingInfo) => k in m.keywords);
    var both, left, right := UrlsFor(a + b, k), UrlsFor(a, k), UrlsFor(b, k);
    var inLeft, inRight := WithKeyword(a, k), WithKeyword(b, k);
    assert |both| == |left| + |right|;
    forall i | 0 <= i < |both| ensures both[i] == (left + right)[i] {
      if i < |left| {
        assert both[i] == inLeft[i].url;
      } else {
        assert both[i] == inRight[i - |left|].url;
      }
    }
  }

  /** `Object.assign(mapping, { [k]: v })`: a new key goes last, an existing key keeps its place. */
  function Assign(m: KeywordMapping, k: string, v: seq<string>): (r: KeywordMapping)
    ensures WellFormed(m) ==> WellFormed(r)
    ensures WellFormed(m) && k in m.keys ==> r.keys == m.keys
    ensures WellFormed(m) && k !in m.keys ==> r.keys == m.keys + [k]
    ensures k in r.urls && r.urls[k] == v
    ensures forall k' :: k' != k ==> (k' in r.urls <==> k' in m.urls)
    ensures forall k' :: k' != k && k' in m.urls ==> r.urls[k'] == m.urls[k']
  {
    var urls := m.urls[k := v];
    if k in m.urls then KeywordMapping(m.keys, urls)
    else KeywordMapping(m.keys + [k], urls)
  }

  /**
    The `reduce` over a keyword list, starting from `{}`. For ANY keyword
    list, duplicates included, the keys come out in order of first
    appearance and each holds the URLs of the entries that list it.
   */
  function BuildMapping(ks: seq<string>, infos: seq<MappingInfo>): (r: KeywordMapping)
    ensures WellFormed(r)
    ensures r.keys == Uniq(ks)
    ensures forall k :: k in r.urls ==> r.urls[k] == UrlsFor(infos, k)
  {
    if ks == [] then EMPTY_MAPPING
    else
      var k := ks[|ks| - 1];
      Assign(BuildMapping(ks[..|ks| - 1], infos), k, UrlsFor(infos, k))
  }

  /**
    `keywordToResourceMapping`: its keys are the distinct keywords in their
    order, and each holds the list of URLs of the entries listing it.
   */
  function KeywordToResourceMapping(infos: seq<MappingInfo>): (r: KeywordMapping)
    ensures WellFormed(r)
    ensures r.keys == ResourceKeywords(infos)
    ensures forall k :: k in r.urls ==> r.urls[k] == UrlsFor(infos, k)
  {
    var ks := ResourceKeywords(infos);
    UniqOfDistinct(ks);
    BuildMapping(ks, infos)
  }

  /**
    The reduce run directly over the flattened keyword lists, duplicates
    included, builds the same object: the `uniq` in front of it changes
    neither the keys, nor their order, nor the values.
   */
  lemma UniqBeforeReduceRedundant(infos: seq<MappingInfo>)
    ensures BuildMapping(Flatten(KeywordLists(infos)), infos) == KeywordToResourceMapping(infos)
  {
    var withDuplicates := BuildMapping(Flatten(KeywordLists(infos)), infos);
    var r := KeywordToResourceMapping(infos);
    assert withDuplicates.keys == r.keys;
    SameKeysSameMapping(withDuplicates, r, infos);
  }

  /** Two objects with the same key order whose every key holds its URL list are equal. */
  lemma SameKeysSameMapping(a: KeywordMapping, b: KeywordMapping, infos: seq<MappingInfo>)
    requires WellFormed(a) && WellFormed(b) && a.keys == b.keys
    requires forall k :: k in a.urls ==> a.urls[k] == UrlsFor(infos, k)
    requires forall k :: k in b.urls ==> b.urls[k] == UrlsFor(infos, k)
    ensures a == b
  {
    assert a.urls.Keys == b.urls.Keys;
    assert a.urls == b.urls;
  }

  /**
    A keyword is a key exactly when some entry lists it, and then its URL
    list is non-empty and no longer than the list of entries.
   */
  lemma KeywordToResourceMappingEntries(infos: seq<MappingInfo>, k: string)
    ensures k in KeywordToResourceMapping(infos).urls <==> exists i :: 0 <= i < |infos| && k in infos[i].keywords
    ensures k in KeywordToResourceMapping(infos).urls ==>
      0 < |KeywordToResourceMapping(infos).urls[k]| <= |infos|
  {
    var r := KeywordToResourceMapping(infos);
    if k in r.urls {
      assert k in ResourceKeywords(infos);
      var i :| 0 <= i < |infos| && k in infos[i].keywords;
      UrlsForMembership(infos, k, infos[i].url);
    }
  }

  /**
    The pure part of `updateMapping`: query result in, object to be written
    out. Its key order lists each key once; the lemmas below say which keys
    and values it holds.
   */
  function UpdateMapping(pages: seq<Page>): (r: KeywordMapping)
    ensures WellFormed(r)
  {
    KeywordToResourceMapping(GetDatabaseMappingInfo(pages))
  }

  // ---------------------------------------------------------------------
  // The whole transform, stated on the pages
  // ---------------------------------------------------------------------

  /** A keyword is a key exactly when some page with keywords lists it. */
  lemma UpdateMappingKeys(pages: seq<Page>, k: string)
    ensures k in UpdateMapping(pages).urls <==>
      exists i :: 0 <= i < |pages| && HasKeywords(pages[i]) && k in PageKeywords(pages[i])
  {
    var infos := GetDatabaseMappingInfo(pages);
    var pos := GetDatabaseMappingInfoPositions(pages);
    if i :| 0 <= i < |pages| && HasKeywords(pages[i]) && k in PageKeywords(pages[i]) {
      var j :| 0 <= j < |pos| && pos[j] == i;
      assert k in infos[j].keywords;
    }
  }

  /**
    A URL is listed under key `k` exactly when some page with keywords lists
    `k` and has that URL; a page without keywords puts its URL nowhere.
   */
  lemma UpdateMappingUrls(pages: seq<Page>, k: string, u: string)
    requires k in UpdateMapping(pages).urls
    ensures u in UpdateMapping(pages).urls[k] <==>
      exists i :: 0 <= i < |pages| && HasKeywords(pages[i]) && k in PageKeywords(pages[i]) && pages[i].url == u
  {
    var infos := GetDatabaseMappingInfo(pages);
    var pos := GetDatabaseMappingInfoPositions(pages);
    assert UpdateMapping(pages).urls[k] == UrlsFor(infos, k);
    UrlsForMembership(infos, k, u);
    if i :| 0 <= i < |pages| && HasKeywords(pages[i]) && k in PageKeywords(pages[i]) && pages[i].url == u {
      var j :| 0 <= j < |pos| && pos[j] == i;
      assert k in infos[j].keywords && infos[j].url == u;
    }
    if j :| 0 <= j < |infos| && k in infos[j].keywords && infos[j].url == u {
      assert k in PageKeywords(pages[pos[j]]) && pages[pos[j]].url == u;
    }
  }

  /**
    Reference definition of the URL list of `k`, in one pass over the pages:
    the URL of every page that has keywords and lists `k`, in page order.
   */
  function PageUrls(pages: seq<Page>, k: string): seq<string> {
    if pages == [] then []
    else
      (if HasKeywords(pages[0]) && k in PageKeywords(pages[0]) then [pages[0].url] else [])
      + PageUrls(pages[1..], k)
  }

  /** Extraction and URL collection on a single page. */
  lemma SinglePageUrls(page: Page, k: string)
    ensures UrlsFor(GetDatabaseMappingInfo([page]), k)
      == if HasKeywords(page) && k in PageKeywords(page) then [page.url] else []
  {
  }

  /**
    The URL list that `KeywordToResourceMapping` stores under `k` for the
    extracted pages is the one-pass reference list: the URLs of the pages
    with keywords that list `k`, one per page, in page order.
   */
  lemma {:induction false} UrlsInPageOrder(pages: seq<Page>, k: string)
    ensures UrlsFor(GetDatabaseMappingInfo(pages), k) == PageUrls(pages, k)
  {
    if pages == [] {
      assert GetDatabaseMappingInfo(pages) == [];
    } else {
      var first, rest := [pages[0]], pages[1..];
      assert pages == first + rest;
      GetDatabaseMappingInfoAppend(first, rest);
      UrlsForAppend(GetDatabaseMappingInfo(first), GetDatabaseMappingInfo(rest), k);
      SinglePageUrls(pages[0], k);
      UrlsInPageOrder(rest, k);
    }
  }

  /** The value stored under a key of the whole transform is the reference URL list of that key. */
  lemma UpdateMappingUrlList(pages: seq<Page>, k: string)
    requires k in UpdateMapping(pages).urls
    ensures UpdateMapping(pages).urls[k] == PageUrls(pages, k)
  {
    UrlsInPageOrder(pages, k);
  }

  /** A page whose rich-text list is empty can be removed without changing the result. */
  lemma PageWithoutKeywordsIgnored(before: seq<Page>, page: Page, after: seq<Page>)
    requires !HasKeywords(page)
    ensures UpdateMapping(before + [page] + after) == UpdateMapping(before + after)
  {
    var single := GetDatabaseMappingInfo([page]);
    assert single == [] by {
      assert Filter([page], HasKeywords) == [];
    }
    calc {
      GetDatabaseMappingInfo(before + [page] + after);
    == { GetDatabaseMappingInfoAppend(before + [page], after); }
      GetDatabaseMappingInfo(before + [page]) + GetDatabaseMappingInfo(after);
    == { GetDatabaseMappingInfoAppend(before, [page]); }
      GetDatabaseMappingInfo(before) + single + GetDatabaseMappingInfo(after);
    == { assert GetDatabaseMappingInfo(before) + single == GetDatabaseMappingInfo(before); }
      GetDatabaseMappingInfo(before) + GetDatabaseMappingInfo(after);
    == { GetDatabaseMappingInfoAppend(before, after); }
      GetDatabaseMappingInfo(before + after);
    }
  }

  /** A query result in which no page has keywords gives the empty object. */
  lemma NoKeywordsGivesEmptyMapping(pages: seq<Page>)
    requires forall i :: 0 <= i < |pages| ==> !HasKeywords(pages[i])
    ensures UpdateMapping(pages) == EMPTY_MAPPING
  {
    var kept := Filter(pages, HasKeywords);
    forall x ensures multiset(kept)[x] == 0 {
      assert x !in kept;
    }
    assert multiset(kept) == multiset{};
    assert |kept| == |multiset(kept)|;
    assert GetDatabaseMappingInfo(pages) == [];
  }
}
