/** Concrete inputs and the outputs the model gives for them. */
module Scenarios {
  import opened Wrappers
  import opened Xml
  import opened Doc
  import opened Files
  import opened Splitter

  function PlainText(s: string): InlineString {
    [RunWithProperties(InlineText(s), 0)]
  }

  /** The `seg` element holding just `text`. */
  function SegOf(id: string, text: string): Node {
    Element(Seg, [Attribute(Id, id), Attribute(XmlSpace, "preserve")], [Text(text)])
  }

  /** A plain, undeleted text converts to that one text node. */
  lemma ConvertPlainText(s: string)
    ensures Convert(PlainText(s)) == [Text(s)]
  {
    ConvertSnoc([], RunWithProperties(InlineText(s), 0));
    assert [] + PlainText(s) == PlainText(s);
  }

  /** A deleted text run followed by a kept one converts to the kept text alone. */
  lemma DeletedThenKept()
    ensures Convert([RunWithProperties(InlineText("deleted"), Del), RunWithProperties(InlineText("kept"), 0)])
      == [Text("kept")]
  {
    var deleted, kept := RunWithProperties(InlineText("deleted"), Del), RunWithProperties(InlineText("kept"), 0);
    HiddenRunVanishes([], deleted, [kept]);
    ConvertPlainText("kept");
    assert [] + [deleted] + [kept] == [deleted, kept];
    assert [] + [kept] == PlainText("kept");
  }

  /** A placeholder between two texts keeps its position; a run of another kind disappears. */
  lemma TagBetweenTexts(a: string, name: string, kind: string, c: string)
    ensures Convert([RunWithProperties(InlineText(a), 0), RunWithProperties(InlineTag(name), 0),
                     RunWithProperties(OtherRun(kind), 0), RunWithProperties(InlineText(c), 0)])
      == [Text(a), Element(Tag, [], []), Text(c)]
  {
    var r0, r1 := RunWithProperties(InlineText(a), 0), RunWithProperties(InlineTag(name), 0);
    var r2, r3 := RunWithProperties(OtherRun(kind), 0), RunWithProperties(InlineText(c), 0);
    ConvertSnoc([], r0);
    ConvertSnoc([r0], r1);
    ConvertSnoc([r0, r1], r2);
    ConvertSnoc([r0, r1, r2], r3);
    assert [] + [r0] == [r0];
    assert [r0] + [r1] == [r0, r1];
    assert [r0, r1] + [r2] == [r0, r1, r2];
    assert [r0, r1, r2] + [r3] == [r0, r1, r2, r3];
  }

  /** The pairs of the example asset: a structural pair, then segment 1. */
  function JobPairs(): seq<TransPair> {
    [TransPair("0", 0, PlainText("<skeleton>"), PlainText("<skeleton>")),
     TransPair("1", 1, PlainText("Hello"), PlainText("Bonjour"))]
  }

  /** Only segment 1 of the example asset is a segment; it becomes one `seg` and a newline. */
  lemma JobSegments(selector: TransPair -> InlineString, text: string)
    requires selector(JobPairs()[1]) == PlainText(text)
    ensures Segments(JobPairs()) == [JobPairs()[1]]
    ensures SegmentNodes(JobPairs(), selector) == [SegOf("1", text), Text("\n")]
  {
    var pairs := JobPairs();
    assert pairs[..1] == [pairs[0]];
    assert [pairs[0]][..0] == [];
    ConvertPlainText(text);
  }

  /** The example asset's document for one side: a newline, segment 1 with that side's text, a newline. */
  lemma JobDocument(basename: string, asset: Asset, language: string, selector: TransPair -> InlineString, text: string)
    requires asset.transPairs == JobPairs()
    requires selector(JobPairs()[1]) == PlainText(text)
    ensures Document(basename, asset, language, selector)
      == Element(File, [Attribute(XmlLang, language), Attribute(Name, basename)],
                 [Text("\n"), SegOf("1", text), Text("\n")])
  {
    JobSegments(selector, text);
    assert [Text("\n")] + [SegOf("1", text), Text("\n")] == [Text("\n"), SegOf("1", text), Text("\n")];
  }

  /** The example's base name and output file names. */
  lemma JobNames(asset: Asset, fileNameOf: string -> string)
    requires asset.original == "doc.html"
    requires fileNameOf("job.xliff") == "job.xliff" && fileNameOf("doc.html") == "doc.html"
    ensures Basename("job.xliff", asset, fileNameOf) == "job.xliff-doc.html"
    ensures OutputFileName("job.xliff-doc.html", "en") == "job.xliff-doc.html (en).xml"
    ensures OutputFileName("job.xliff-doc.html", "fr") == "job.xliff-doc.html (fr).xml"
  {
  }

  /**
   * Splitting `job.xliff` whose one asset `doc.html` (English to French) holds
   * a structural pair and the segment "Hello" / "Bonjour" writes the English
   * document and then the French one; the structural pair is in neither.
   */
  lemma JobScenario(fileNameOf: string -> string)
    requires fileNameOf("job.xliff") == "job.xliff" && fileNameOf("doc.html") == "doc.html"
    ensures
      SplitWrites("job.xliff", [Asset("doc.html", "en", "fr", JobPairs())], fileNameOf) == [
        Write("job.xliff-doc.html (en).xml",
          Element(File, [Attribute(XmlLang, "en"), Attribute(Name, "job.xliff-doc.html")],
            [Text("\n"), SegOf("1", "Hello"), Text("\n")])),
        Write("job.xliff-doc.html (fr).xml",
          Element(File, [Attribute(XmlLang, "fr"), Attribute(Name, "job.xliff-doc.html")],
            [Text("\n"), SegOf("1", "Bonjour"), Text("\n")]))]
  {
    var asset := Asset("doc.html", "en", "fr", JobPairs());
    var basename := "job.xliff-doc.html";
    JobNames(asset, fileNameOf);
    JobDocument(basename, asset, "en", SourceOf, "Hello");
    JobDocument(basename, asset, "fr", TargetOf, "Bonjour");
    assert [asset][..0] == [];
    assert SplitWrites("job.xliff", [asset], fileNameOf) == [] + AssetWrites("job.xliff", asset, fileNameOf);
  }

  /** Splitting a bundle with no assets fails with a message naming the file and saves nothing. */
  method EmptyBundleScenario() returns (r: Outcome, saved: map<string, Node>)
    ensures r == Failed("Contains no usable contents: empty.xliff")
    ensures saved == map[]
  {
    var store := new FileStore(map[]);
    r := Split(store, "empty.xliff", Bundle([]), (s: string) => s);
    saved := store.files;
  }
}
