/**
  Concrete runs of the transform of scripts/downloadNotionStandards.ts on
  small query results.
 */
module MappingExamples {
  import opened Seqs
  import opened Strings
  import opened NotionMapping

  /** Two pages, one tagging "a" and "b", the other "b": "b" lists both URLs in page order. */
  lemma TwoPagesExample()
    ensures UpdateMapping([Page([RichTextItem("a\nb")], "u1"), Page([RichTextItem("b")], "u2")])
      == KeywordMapping(["a", "b"], map["a" := ["u1"], "b" := ["u1", "u2"]])
  {
    TwoPagesExtraction();
    TwoEntriesIndex();
  }

  /** Stage 2 on the two entries: keys in order of first appearance, URLs in entry order. */
  lemma TwoEntriesIndex()
    ensures KeywordToResourceMapping([MappingInfo(["a", "b"], "u1"), MappingInfo(["b"], "u2")])
      == KeywordMapping(["a", "b"], map["a" := ["u1"], "b" := ["u1", "u2"]])
  {
    var infos := [MappingInfo(["a", "b"], "u1"), MappingInfo(["b"], "u2")];
    TwoEntriesKeywords();
    TwoEntriesUrls();
    TwoEntriesFirstKey();
    assert ["a", "b"][..1] == ["a"];
    assert KeywordToResourceMapping(infos) == Assign(KeywordMapping(["a"], map["a" := ["u1"]]), "b", ["u1", "u2"]);
  }

  /** The reduce after its first keyword. */
  lemma TwoEntriesFirstKey()
    ensures BuildMapping(["a"], [MappingInfo(["a", "b"], "u1"), MappingInfo(["b"], "u2")])
      == KeywordMapping(["a"], map["a" := ["u1"]])
  {
    TwoEntriesUrls();
    assert ["a"][..0] == [];
  }

  /** The distinct keywords of the two entries: "b" is listed twice but kept once. */
  lemma TwoEntriesKeywords()
    ensures ResourceKeywords([MappingInfo(["a", "b"], "u1"), MappingInfo(["b"], "u2")]) == ["a", "b"]
  {
  }

  /** The URL lists of the two entries' keywords. */
  lemma TwoEntriesUrls()
    ensures UrlsFor([MappingInfo(["a", "b"], "u1"), MappingInfo(["b"], "u2")], "a") == ["u1"]
    ensures UrlsFor([MappingInfo(["a", "b"], "u1"), MappingInfo(["b"], "u2")], "b") == ["u1", "u2"]
  {
  }

  /** Stage 1 on the two pages: "a\nb" splits into two keywords, "b" into one. */
  lemma TwoPagesExtraction()
    ensures GetDatabaseMappingInfo([Page([RichTextItem("a\nb")], "u1"), Page([RichTextItem("b")], "u2")])
      == [MappingInfo(["a", "b"], "u1"), MappingInfo(["b"], "u2")]
  {
    var pages := [Page([RichTextItem("a\nb")], "u1"), Page([RichTextItem("b")], "u2")];
    assert Join(["b"], '\n') == "b";
    SplitJoin(["b"], '\n');
    assert Join(["a", "b"], '\n') == "a\nb" by {
      assert ["a", "b"][1..] == ["b"];
    }
    SplitJoin(["a", "b"], '\n');
    assert pages[1..] == [pages[1]];
    assert Filter(pages, HasKeywords) == pages;
  }

  /** A page whose rich-text list is empty is dropped, so it alone gives `{}`. */
  lemma EmptyRichTextExample()
    ensures UpdateMapping([Page([], "u1")]) == EMPTY_MAPPING
  {
  }

  /** Empty keywords are kept: the text "x\n" gives the keys "x" and "". */
  lemma EmptyKeywordExample()
    ensures UpdateMapping([Page([RichTextItem("x\n")], "u1")])
      == KeywordMapping(["x", ""], map["x" := ["u1"], "" := ["u1"]])
  {
    EmptyKeywordExtraction();
    EmptyKeywordIndex();
  }

  /** Stage 1 on "x\n": the empty piece after the separator is a keyword. */
  lemma EmptyKeywordExtraction()
    ensures GetDatabaseMappingInfo([Page([RichTextItem("x\n")], "u1")]) == [MappingInfo(["x", ""], "u1")]
  {
    var pages := [Page([RichTextItem("x\n")], "u1")];
    assert Join(["x", ""], '\n') == "x\n" by {
      assert ["x", ""][1..] == [""];
    }
    SplitJoin(["x", ""], '\n');
    assert Filter(pages, HasKeywords) == pages;
  }

  /** Stage 2 on the one entry listing "x" and "": both keys hold its URL. */
  lemma EmptyKeywordIndex()
    ensures KeywordToResourceMapping([MappingInfo(["x", ""], "u1")])
      == KeywordMapping(["x", ""], map["x" := ["u1"], "" := ["u1"]])
  {
    var infos := [MappingInfo(["x", ""], "u1")];
    EmptyKeywordKeywords();
    assert UrlsFor(infos, "x") == ["u1"] && UrlsFor(infos, "") == ["u1"];
    var withX := KeywordMapping(["x"], map["x" := ["u1"]]);
    assert BuildMapping(["x"], infos) == withX by {
      assert ["x"][..0] == [];
    }
    assert ["x", ""][..1] == ["x"];
    assert KeywordToResourceMapping(infos) == Assign(withX, "", ["u1"]);
  }

  /** The distinct keywords of the one entry are its own two keywords. */
  lemma EmptyKeywordKeywords()
    ensures ResourceKeywords([MappingInfo(["x", ""], "u1")]) == ["x", ""]
  {
  }
}
