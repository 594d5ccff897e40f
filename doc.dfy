/**
 * The bilingual document model that an external reader library produces:
 * a bundle of assets, each a list of translation pairs whose two sides are
 * inline strings, i.e. runs carrying property masks.
 */
module Doc {

  /** The property bit mask attached to each run. */
  type PropertyMask = bv32

  /** The bit that marks a run as deleted text. */
  const Del: PropertyMask := 0x2

  predicate HasDel(property: PropertyMask) {
    property & Del != 0
  }

  /** One run of inline content. */
  datatype Run =
    | InlineText(text: string)   // plain text
    | InlineTag(name: string)    // an inline placeholder for formatting markup
    | OtherRun(kind: string)     // any other kind of run

  datatype RunWithProperties = RunWithProperties(run: Run, property: PropertyMask)

  /** Rich text: its runs in order, each with its properties. */
  type InlineString = seq<RunWithProperties>

  /**
   * A translation pair. A positive serial marks a real segment; zero or a
   * negative serial marks structural content between segments.
   */
  datatype TransPair = TransPair(id: string, serial: int, source: InlineString, target: InlineString)

  datatype Asset = Asset(original: string, sourceLang: string, targetLang: string, transPairs: seq<TransPair>)

  /** The result of reading one bilingual file. */
  datatype Bundle = Bundle(assets: seq<Asset>)
}
