/**
 * The bilingual-to-monolingual splitter: for every asset of a bundle it
 * writes one XML document with the source side of each segment and one with
 * the target side.
 */
module Splitter {
  import opened Wrappers
  import opened Xml
  import opened Doc
  import opened Files

  // The qualified names of the output's elements and attributes.

  const XmlLang: QName := QName(XmlNamespace, "lang")
  const XmlSpace: QName := QName(XmlNamespace, "space")
  const Id: QName := QName(NoNamespace, "id")
  const File: QName := QName(NoNamespace, "file")
  const Name: QName := QName(NoNamespace, "name")
  const Seg: QName := QName(NoNamespace, "seg")
  const Tag: QName := QName(NoNamespace, "tag")

  /*************************************************************************
   * Converting an inline string to mixed content
   *************************************************************************/

  /** The nodes yielded for one run: deleted runs and unknown kinds yield nothing. */
  function ConvertRun(rwp: RunWithProperties): seq<Node> {
    if !HasDel(rwp.property) then
      match rwp.run
      case InlineText(text) => [Text(text)]
      case InlineTag(_) => [Element(Tag, [], [])]
      case OtherRun(_) => []
    else
      []
  }

  /** Mixed content as Convert produces it: text, or an empty `tag` element. */
  predicate IsMixedContentNode(n: Node) {
    n.Text? || IsEmptyElement(n, Tag)
  }

  /** The nodes for an inline string, run by run, in order. */
  function Convert(inline: InlineString): (nodes: seq<Node>)
    ensures |nodes| <= |inline|
    ensures forall n <- nodes :: IsMixedContentNode(n)
  {
    if inline == [] then []
    else Convert(inline[..|inline| - 1]) + ConvertRun(inline[|inline| - 1])
  }

  // A reference description of Convert: which runs show, and what each becomes.

  /** A run shows in the output when it is not deleted and is text or a tag. */
  predicate Shows(rwp: RunWithProperties) {
    !HasDel(rwp.property) && (rwp.run.InlineText? || rwp.run.InlineTag?)
  }

  /** What a text or tag run becomes: a text node with its string, or an empty `tag` element. */
  function NodeOf(rwp: RunWithProperties): Node
    requires Shows(rwp)
  {
    if rwp.run.InlineText? then Text(rwp.run.text) else Element(Tag, [], [])
  }

  /** The positions of the runs that show, in increasing order. */
  function ShownIndices(inline: InlineString): seq<nat> {
    if inline == [] then []
    else ShownIndices(inline[..|inline| - 1]) + if Shows(inline[|inline| - 1]) then [|inline| - 1] else []
  }

  /** ShownIndices lists exactly the positions of the runs that show, each once, in increasing order. */
  lemma {:induction false} ShownIndicesSpec(inline: InlineString)
    ensures forall j :: 0 <= j < |ShownIndices(inline)| ==>
      ShownIndices(inline)[j] < |inline| && Shows(inline[ShownIndices(inline)[j]])
    ensures forall j, k :: 0 <= j < k < |ShownIndices(inline)| ==> ShownIndices(inline)[j] < ShownIndices(inline)[k]
    ensures forall i :: 0 <= i < |inline| && Shows(inline[i]) ==> i in ShownIndices(inline)
  {
    if inline != [] {
      var init, n := inline[..|inline| - 1], |inline| - 1;
      ShownIndicesSpec(init);
      var ix, rest := ShownIndices(inline), ShownIndices(init);
      assert ix == rest + if Shows(inline[n]) then [n] else [];
      forall j | 0 <= j < |rest|
        ensures ix[j] == rest[j] < n && Shows(inline[ix[j]])
      {
        assert inline[rest[j]] == init[rest[j]];
      }
      forall i | 0 <= i < n && Shows(inline[i])
        ensures i in ix
      {
        assert init[i] == inline[i];
      }
    }
  }

  /**
   * Convert yields exactly one node per run that shows, in the order of
   * those runs, and that node is the run's text or an empty `tag` element.
   */
  lemma {:induction false} ConvertMatchesShownRuns(inline: InlineString)
    ensures |Convert(inline)| == |ShownIndices(inline)|
    ensures forall j :: 0 <= j < |ShownIndices(inline)| ==>
      && ShownIndices(inline)[j] < |inline|
      && Shows(inline[ShownIndices(inline)[j]])
      && Convert(inline)[j] == NodeOf(inline[ShownIndices(inline)[j]])
  {
    ShownIndicesSpec(inline);
    if inline != [] {
      var init, last := inline[..|inline| - 1], inline[|inline| - 1];
      ConvertMatchesShownRuns(init);
      var ix, ixInit := ShownIndices(inline), ShownIndices(init);
      var nodes, nodesInit := Convert(inline), Convert(init);
      assert ix == ixInit + if Shows(last) then [|inline| - 1] else [];
      assert nodes == nodesInit + ConvertRun(last);
      assert |ConvertRun(last)| == if Shows(last) then 1 else 0;
      forall j | 0 <= j < |ix|
        ensures nodes[j] == NodeOf(inline[ix[j]])
      {
        if j < |ixInit| {
          assert inline[ixInit[j]] == init[ixInit[j]];
          assert nodes[j] == nodesInit[j];
        } else {
          assert ix[j] == |inline| - 1;
        }
      }
    }
  }

  /** Converting a concatenation converts each part in place: Convert keeps order. */
  lemma {:induction false} ConvertAppend(a: InlineString, b: InlineString)
    ensures Convert(a + b) == Convert(a) + Convert(b)
    decreases |b|
  {
    if b == [] {
      assert a + b == a;
    } else {
      var init := b[..|b| - 1];
      assert (a + b)[..|a + b| - 1] == a + init;
      assert (a + b)[|a + b| - 1] == b[|b| - 1];
      ConvertAppend(a, init);
    }
  }

  /** Appending one run appends what that run yields. */
  lemma ConvertSnoc(inline: InlineString, rwp: RunWithProperties)
    ensures Convert(inline + [rwp]) == Convert(inline) + ConvertRun(rwp)
  {
    assert (inline + [rwp])[..|inline|] == inline;
  }

  /** A deleted run, or a run of an unknown kind, leaves no trace and does not stop the conversion. */
  lemma HiddenRunVanishes(before: InlineString, rwp: RunWithProperties, after: InlineString)
    requires HasDel(rwp.property) || rwp.run.OtherRun?
    ensures Convert(before + [rwp] + after) == Convert(before + after)
  {
    ConvertAppend(before + [rwp], after);
    ConvertSnoc(before, rwp);
    ConvertAppend(before, after);
  }

  /** A run that shows yields exactly one node, in its place. */
  lemma ShownRunYieldsOneNode(before: InlineString, rwp: RunWithProperties, after: InlineString)
    requires Shows(rwp)
    ensures Convert(before + [rwp] + after) == Convert(before) + [NodeOf(rwp)] + Convert(after)
  {
    ConvertAppend(before + [rwp], after);
    ConvertSnoc(before, rwp);
  }

  /** With nothing deleted and only text and tag runs, there is one node per run, in order. */
  lemma {:induction false} ConvertOneToOne(inline: InlineString)
    requires forall i :: 0 <= i < |inline| ==> Shows(inline[i])
    ensures |Convert(inline)| == |inline|
    ensures forall i :: 0 <= i < |inline| ==> Convert(inline)[i] == NodeOf(inline[i])
  {
    if inline != [] {
      var init, last := inline[..|inline| - 1], inline[|inline| - 1];
      ConvertOneToOne(init);
      assert Shows(last);
      assert Convert(inline) == Convert(init) + [NodeOf(last)];
      forall i | 0 <= i < |init|
        ensures Convert(inline)[i] == NodeOf(inline[i])
      {
        assert inline[i] == init[i];
      }
    }
  }

  /** Only deleted runs and runs of unknown kinds: the content is empty. */
  lemma {:induction false} ConvertNothingShown(inline: InlineString)
    requires forall i :: 0 <= i < |inline| ==> !Shows(inline[i])
    ensures Convert(inline) == []
  {
    if inline != [] {
      ConvertNothingShown(inline[..|inline| - 1]);
    }
  }

  /*************************************************************************
   * Building the document for one asset and one language
   *************************************************************************/

  /** A pair is a segment when its serial is positive. */
  predicate IsSegment(pair: TransPair) {
    pair.serial > 0
  }

  /** The segments among `pairs`, in their original order. */
  function Segments(pairs: seq<TransPair>): (segs: seq<TransPair>)
    ensures |segs| <= |pairs|
    ensures forall p <- segs :: IsSegment(p) && p in pairs
    ensures forall p <- pairs :: IsSegment(p) ==> p in segs
  {
    if pairs == [] then []
    else
      var last := pairs[|pairs| - 1];
      Segments(pairs[..|pairs| - 1]) + if IsSegment(last) then [last] else []
  }

  /** Filtering a concatenation filters each part in place: Segments keeps order. */
  lemma {:induction false} SegmentsAppend(a: seq<TransPair>, b: seq<TransPair>)
    ensures Segments(a + b) == Segments(a) + Segments(b)
    decreases |b|
  {
    if b == [] {
      assert a + b == a;
    } else {
      assert (a + b)[..|a + b| - 1] == a + b[..|b| - 1];
      assert (a + b)[|a + b| - 1] == b[|b| - 1];
      SegmentsAppend(a, b[..|b| - 1]);
    }
  }

  /** A pair with a non-positive serial is dropped; one with a positive serial is kept exactly once, in place. */
  lemma SegmentsOfOne(before: seq<TransPair>, pair: TransPair, after: seq<TransPair>)
    ensures Segments(before + [pair] + after)
      == Segments(before) + (if IsSegment(pair) then [pair] else []) + Segments(after)
  {
    SegmentsAppend(before + [pair], after);
    SegmentsAppend(before, [pair]);
    assert [pair][..0] == [];
  }

  /** The `seg` element for a segment: its id, `xml:space="preserve"`, and the converted selected side. */
  function SegElement(pair: TransPair, selector: TransPair -> InlineString): Node {
    Element(Seg, [Attribute(Id, pair.id), Attribute(XmlSpace, "preserve")], Convert(selector(pair)))
  }

  /** The children after the leading newline: each segment's element followed by a newline. */
  function SegmentNodes(pairs: seq<TransPair>, selector: TransPair -> InlineString): (nodes: seq<Node>)
    ensures |nodes| == 2 * |Segments(pairs)|
    ensures forall k :: 0 <= k < |Segments(pairs)| ==>
      nodes[2 * k] == SegElement(Segments(pairs)[k], selector) && nodes[2 * k + 1] == Text("\n")
  {
    if pairs == [] then []
    else
      var last := pairs[|pairs| - 1];
      SegmentNodes(pairs[..|pairs| - 1], selector)
        + if IsSegment(last) then [SegElement(last, selector), Text("\n")] else []
  }

  /**
   * The document for one asset in one language: a `file` element naming the
   * language and the base name, whose children are a newline and then, for
   * each segment in order, its `seg` element and a newline.
   */
  function Document(basename: string, asset: Asset, language: string, selector: TransPair -> InlineString): (root: Node)
    ensures root.Element? && root.name == File
    ensures root.attributes == [Attribute(XmlLang, language), Attribute(Name, basename)]
    ensures |root.children| == 1 + 2 * |Segments(asset.transPairs)|
    ensures root.children[0] == Text("\n")
    ensures forall k :: 0 <= k < |Segments(asset.transPairs)| ==>
      && root.children[2 * k + 1] == SegElement(Segments(asset.transPairs)[k], selector)
      && root.children[2 * k + 2] == Text("\n")
  {
    Element(File, [Attribute(XmlLang, language), Attribute(Name, basename)],
      [Text("\n")] + SegmentNodes(asset.transPairs, selector))
  }

  /** Child i of a document: a newline at even positions, the `seg` of segment i / 2 at odd ones. */
  lemma DocumentChild(basename: string, asset: Asset, language: string, selector: TransPair -> InlineString, i: nat)
    requires i < |Document(basename, asset, language, selector).children|
    ensures var child := Document(basename, asset, language, selector).children[i];
      && (i % 2 == 0 ==> child == Text("\n"))
      && (i % 2 == 1 ==> i / 2 < |Segments(asset.transPairs)|
                         && child == SegElement(Segments(asset.transPairs)[i / 2], selector))
  {
    var d, segs := Document(basename, asset, language, selector), Segments(asset.transPairs);
    if i % 2 == 1 {
      var k := i / 2;
      assert i == 2 * k + 1 && k < |segs|;
      assert d.children[2 * k + 1] == SegElement(segs[k], selector);
    } else if i > 0 {
      var k := i / 2 - 1;
      assert i == 2 * k + 2 && k < |segs|;
      assert d.children[2 * k + 2] == Text("\n");
    }
  }

  /**
   * The two documents of an asset have the same shape: they differ only in
   * the language attribute and in the content of each `seg`.
   */
  lemma SidesShareStructure(basename: string, asset: Asset, lang1: string, lang2: string,
                            sel1: TransPair -> InlineString, sel2: TransPair -> InlineString)
    ensures var d1, d2 := Document(basename, asset, lang1, sel1), Document(basename, asset, lang2, sel2);
      && |d1.children| == |d2.children|
      && forall i :: 0 <= i < |d1.children| ==>
        && (i % 2 == 0 ==> d1.children[i] == d2.children[i] == Text("\n"))
        && (i % 2 == 1 ==>
              && d1.children[i].Element? && d2.children[i].Element?
              && d1.children[i].name == d2.children[i].name == Seg
              && d1.children[i].attributes == d2.children[i].attributes)
  {
    var d1, d2 := Document(basename, asset, lang1, sel1), Document(basename, asset, lang2, sel2);
    forall i | 0 <= i < |d1.children|
      ensures i % 2 == 0 ==> d1.children[i] == d2.children[i] == Text("\n")
      ensures i % 2 == 1 ==>
        && d1.children[i].Element? && d2.children[i].Element?
        && d1.children[i].name == d2.children[i].name == Seg
        && d1.children[i].attributes == d2.children[i].attributes
    {
      DocumentChild(basename, asset, lang1, sel1, i);
      DocumentChild(basename, asset, lang2, sel2, i);
    }
  }

  /** The name of the file written for one base name and one language. */
  function OutputFileName(basename: string, language: string): string {
    basename + " (" + language + ").xml"
  }

  /** Reads the language back out of an output file name with the given base name. */
  function LanguageOf(path: string, basename: string): Option<string> {
    var n := |basename| + 2;
    if |path| >= n + 5 && path[..n] == basename + " (" && path[|path| - 5..] == ").xml"
    then Some(path[n..|path| - 5])
    else None
  }

  /** LanguageOf inverts OutputFileName, in both directions. */
  lemma OutputFileNameRoundTrip(path: string, basename: string, language: string)
    ensures LanguageOf(OutputFileName(basename, language), basename) == Some(language)
    ensures LanguageOf(path, basename) == Some(language) ==> path == OutputFileName(basename, language)
  {
    var name := OutputFileName(basename, language);
    var n := |basename| + 2;
    assert name[..n] == basename + " (";
    assert name[|name| - 5..] == ").xml";
    assert name[n..|name| - 5] == language;
    if LanguageOf(path, basename) == Some(language) {
      assert path == path[..n] + path[n..|path| - 5] + path[|path| - 5..];
    }
  }

  /** The source and target files of one asset get different names unless the two languages are equal. */
  lemma OutputFileNamesDiffer(basename: string, lang1: string, lang2: string)
    requires lang1 != lang2
    ensures OutputFileName(basename, lang1) != OutputFileName(basename, lang2)
  {
    OutputFileNameRoundTrip(OutputFileName(basename, lang1), basename, lang1);
    OutputFileNameRoundTrip(OutputFileName(basename, lang2), basename, lang2);
  }

  /** The one save that Emit makes. */
  function EmitWrite(basename: string, asset: Asset, language: string, selector: TransPair -> InlineString): Write {
    Write(OutputFileName(basename, language), Document(basename, asset, language, selector))
  }

  /** Builds the document for `asset` in `language` and saves it as `basename (language).xml`. */
  method Emit(store: FileStore, basename: string, asset: Asset, language: string, selector: TransPair -> InlineString)
    requires store.Valid()
    modifies store
    ensures store.Valid()
    ensures store.log == old(store.log) + [EmitWrite(basename, asset, language, selector)]
    ensures store.files == old(store.files)[OutputFileName(basename, language) := Document(basename, asset, language, selector)]
  {
    var root := Document(basename, asset, language, selector);
    store.Save(OutputFileName(basename, language), root);
  }

  /*************************************************************************
   * Splitting a bundle
   *************************************************************************/

  function SourceOf(pair: TransPair): InlineString {
    pair.source
  }

  function TargetOf(pair: TransPair): InlineString {
    pair.target
  }

  /** The base name shared by both outputs of an asset: input file name, a hyphen, the asset's original name. */
  function Basename(filename: string, asset: Asset, fileNameOf: string -> string): string {
    fileNameOf(filename) + "-" + fileNameOf(asset.original)
  }

  /** The two saves made for one asset: source side, then target side. */
  function AssetWrites(filename: string, asset: Asset, fileNameOf: string -> string): seq<Write> {
    var basename := Basename(filename, asset, fileNameOf);
    [EmitWrite(basename, asset, asset.sourceLang, SourceOf), EmitWrite(basename, asset, asset.targetLang, TargetOf)]
  }

  /** The saves made for `assets`, asset by asset. */
  function SplitWrites(filename: string, assets: seq<Asset>, fileNameOf: string -> string): (writes: seq<Write>)
    ensures |writes| == 2 * |assets|
  {
    if assets == [] then []
    else SplitWrites(filename, assets[..|assets| - 1], fileNameOf) + AssetWrites(filename, assets[|assets| - 1], fileNameOf)
  }

  /** Save 2k is the source-side document of asset k and save 2k+1 its target-side document. */
  lemma {:induction false} SplitWritesShape(filename: string, assets: seq<Asset>, fileNameOf: string -> string)
    ensures forall k :: 0 <= k < |assets| ==>
      && SplitWrites(filename, assets, fileNameOf)[2 * k] == AssetWrites(filename, assets[k], fileNameOf)[0]
      && SplitWrites(filename, assets, fileNameOf)[2 * k + 1] == AssetWrites(filename, assets[k], fileNameOf)[1]
  {
    if assets != [] {
      var init := assets[..|assets| - 1];
      SplitWritesShape(filename, init, fileNameOf);
      var writes, writesInit := SplitWrites(filename, assets, fileNameOf), SplitWrites(filename, init, fileNameOf);
      assert writes == writesInit + AssetWrites(filename, assets[|assets| - 1], fileNameOf);
      forall k | 0 <= k < |assets|
        ensures writes[2 * k] == AssetWrites(filename, assets[k], fileNameOf)[0]
        ensures writes[2 * k + 1] == AssetWrites(filename, assets[k], fileNameOf)[1]
      {
        if k < |init| {
          assert assets[k] == init[k];
          assert writes[2 * k] == writesInit[2 * k] && writes[2 * k + 1] == writesInit[2 * k + 1];
        } else {
          assert 2 * k == |writesInit|;
        }
      }
    }
  }

  /** One more asset adds its two saves at the end. */
  lemma SplitWritesPrefix(filename: string, assets: seq<Asset>, i: nat, fileNameOf: string -> string)
    requires i < |assets|
    ensures SplitWrites(filename, assets[..i + 1], fileNameOf)
      == SplitWrites(filename, assets[..i], fileNameOf) + AssetWrites(filename, assets[i], fileNameOf)
  {
    assert assets[..i + 1][..i] == assets[..i];
  }

  /** Appending two items one at a time is appending the pair of them. */
  lemma AppendTwo<T>(start: seq<T>, done: seq<T>, w1: T, w2: T)
    ensures start + done + [w1] + [w2] == start + (done + [w1, w2])
  {
  }

  /**
   * When all output names of a split are different, every document the split
   * saves is what its file holds afterwards.
   */
  lemma SplitDocumentsSurvive(log: seq<Write>, filename: string, assets: seq<Asset>, fileNameOf: string -> string)
    requires forall j, k :: 0 <= j < k < |SplitWrites(filename, assets, fileNameOf)| ==>
      SplitWrites(filename, assets, fileNameOf)[j].path != SplitWrites(filename, assets, fileNameOf)[k].path
    ensures forall k :: 0 <= k < |assets| ==>
      var basename := Basename(filename, assets[k], fileNameOf);
      && Latest(log + SplitWrites(filename, assets, fileNameOf), OutputFileName(basename, assets[k].sourceLang))
         == Some(Document(basename, assets[k], assets[k].sourceLang, SourceOf))
      && Latest(log + SplitWrites(filename, assets, fileNameOf), OutputFileName(basename, assets[k].targetLang))
         == Some(Document(basename, assets[k], assets[k].targetLang, TargetOf))
  {
    var writes := SplitWrites(filename, assets, fileNameOf);
    LatestOfDistinct(log, writes);
    SplitWritesShape(filename, assets, fileNameOf);
    forall k | 0 <= k < |assets|
      ensures var basename := Basename(filename, assets[k], fileNameOf);
        && Latest(log + writes, OutputFileName(basename, assets[k].sourceLang))
           == Some(Document(basename, assets[k], assets[k].sourceLang, SourceOf))
        && Latest(log + writes, OutputFileName(basename, assets[k].targetLang))
           == Some(Document(basename, assets[k], assets[k].targetLang, TargetOf))
    {
      assert writes[2 * k] == AssetWrites(filename, assets[k], fileNameOf)[0];
      assert writes[2 * k + 1] == AssetWrites(filename, assets[k], fileNameOf)[1];
    }
  }

  /**
   * An asset whose source and target languages are equal gets one file name
   * for both sides, so the target-side document overwrites the source-side one.
   */
  lemma SameLanguageTargetWins(log: seq<Write>, filename: string, asset: Asset, fileNameOf: string -> string)
    requires asset.sourceLang == asset.targetLang
    ensures var basename := Basename(filename, asset, fileNameOf);
      Latest(log + AssetWrites(filename, asset, fileNameOf), OutputFileName(basename, asset.targetLang))
        == Some(Document(basename, asset, asset.targetLang, TargetOf))
  {
    var basename := Basename(filename, asset, fileNameOf);
    LatestAppend(log, AssetWrites(filename, asset, fileNameOf), OutputFileName(basename, asset.targetLang));
  }

  /** The message of the failure raised for a bundle with no assets. */
  function NoContentsMessage(filename: string): string {
    "Contains no usable contents: " + filename
  }

  /**
   * Splits the bundle read from `filename`: fails without saving anything
   * when it has no assets, and otherwise saves two documents per asset.
   */
  method Split(store: FileStore, filename: string, bundle: Bundle, fileNameOf: string -> string) returns (r: Outcome)
    requires store.Valid()
    modifies store
    ensures store.Valid()
    ensures r == if bundle.assets == [] then Failed(NoContentsMessage(filename)) else Done
    ensures r.Failed? ==> store.log == old(store.log) && store.files == old(store.files)
    ensures r.Done? ==> store.log == old(store.log) + SplitWrites(filename, bundle.assets, fileNameOf)
    ensures r.Done? ==> store.files == ApplyWrites(old(store.files), SplitWrites(filename, bundle.assets, fileNameOf))
  {
    var assets := bundle.assets;
    if |assets| == 0 {
      return Failed(NoContentsMessage(filename));
    }
    var i := 0;
    while i < |assets|
      invariant 0 <= i <= |assets|
      invariant store.Valid()
      invariant store.log == old(store.log) + SplitWrites(filename, assets[..i], fileNameOf)
      invariant store.files == ApplyWrites(old(store.files), SplitWrites(filename, assets[..i], fileNameOf))
    {
      var asset := assets[i];
      var basename := Basename(filename, asset, fileNameOf);
      ghost var done := SplitWrites(filename, assets[..i], fileNameOf);
      Emit(store, basename, asset, asset.sourceLang, SourceOf);
      Emit(store, basename, asset, asset.targetLang, TargetOf);
      SplitWritesPrefix(filename, assets, i, fileNameOf);
      ghost var w1 := EmitWrite(basename, asset, asset.sourceLang, SourceOf);
      ghost var w2 := EmitWrite(basename, asset, asset.targetLang, TargetOf);
      AppendTwo(old(store.log), done, w1, w2);
      ApplyTwoMore(old(store.files), done, w1, w2);
      i := i + 1;
    }
    assert assets[..i] == assets;
    r := Done;
  }
}
