# Bilingual file splitter, modelled in Dafny

This project models the core of a tool that splits a bilingual translation file into monolingual XML files.
An external reader library turns the input file into a *bundle* of *assets*.
Each asset holds *translation pairs*, and each pair has an id, a serial number, and a source and a target *inline string*.
For every asset the splitter writes two documents: one with the source side of every segment, then one with the target side.

The model has these parts:

- `Doc` (`doc.dfy`): the reader's data model.
  - Runs are text, inline tags or other kinds, each carrying a property bit mask.
  - The inline strings, translation pairs, assets and the bundle.
- `Xml` (`xml.dfy`): the document tree.
  - Text nodes, and elements with qualified names, ordered attributes and ordered children.
  - The namespace of the `xml:` prefix is a value of its own.
- `Files` (`files.dfy`): the output directory, as a `FileStore` class.
  - It has a map from file name to saved document, and a ghost log of every save.
  - Its invariant says that each saved file holds the document of its latest save.
- `Splitter` (`splitter.dfy`): the splitter itself.
  - The element and attribute names.
  - `Convert`, which turns an inline string into mixed content.
  - `IsSegment` and `Segments`, the segment filter.
  - `Document`, the tree built for one asset and one language.
  - `Emit`, a method that builds that tree and saves it.
  - `Split`, a method that rejects an empty bundle and otherwise emits twice per asset.
  - The lemmas about all of these.
- `Scenarios` (`scenarios.dfy`): concrete inputs with the outputs the model gives for them.

`Convert` and the tree construction are pure, so they are recursive functions.
The saves are the part that changes state: `Emit` and `Split` are methods that modify a `FileStore`.
Each method's `ensures` says that the log grows by exactly the specification function's writes (`EmitWrite`, `SplitWrites`).

## Model

| member | source | states |
|---|---|---|
| `Splitter.Convert` | splitter/Splitter.cs:84-108 | There are never more nodes than runs. Every node is a text node or an empty `tag` element. |
| `Splitter.ShownIndicesSpec` | splitter/Splitter.cs:89-97 | The reference `ShownIndices` lists exactly the positions of the runs that are not deleted and are text or tag. It lists each one once, in increasing order. |
| `Splitter.ConvertMatchesShownRuns` | splitter/Splitter.cs:86-107 | Convert yields exactly one node per shown run, in the order of those runs. Each node is `NodeOf` that run: the run's text, or an empty `tag`. |
| `Splitter.ConvertAppend` | splitter/Splitter.cs:86-107 | Converting a concatenation is concatenating the conversions. Each run's output stays in its place. |
| `Splitter.HiddenRunVanishes` | splitter/Splitter.cs:88-105 | A run with the `Del` bit (whatever its kind), or a run of an unknown kind, leaves the output as if it were absent. It does not stop the conversion. |
| `Splitter.ShownRunYieldsOneNode` | splitter/Splitter.cs:93-97 | A text or tag run without `Del` yields exactly one node, in its place. |
| `Splitter.ConvertOneToOne` | splitter/Splitter.cs:86-107 | With no deleted runs and only text or tag runs, output node i is `NodeOf(run i)`, one node per run. |
| `Splitter.ConvertNothingShown` | splitter/Splitter.cs:89-105 | When every run is deleted or of an unknown kind, the content is empty. |
| `Splitter.Segments` | splitter/Splitter.cs:64 | The result is never longer than the input. Every kept pair has a positive serial and comes from the input. Every input pair with a positive serial is kept. |
| `Splitter.SegmentsAppend` | splitter/Splitter.cs:64 | The filter works on each part of a concatenation in place, so it keeps the original order. |
| `Splitter.SegmentsOfOne` | splitter/Splitter.cs:79 | A pair with serial <= 0 is dropped. A pair with serial > 0 is kept exactly once, in place. |
| `Splitter.SegmentNodes` | splitter/Splitter.cs:64-72 | There are two nodes per segment. Node 2k is the `seg` of segment k and node 2k+1 is a newline. |
| `Splitter.Document` | splitter/Splitter.cs:60-72 | The root is `file` with `xml:lang` = language and `name` = basename. It has 1 + 2k children for k segments: a newline first, then for segment k its `seg` (id, `xml:space="preserve"`, converted selected side) and a newline. |
| `Splitter.DocumentChild` | splitter/Splitter.cs:63-71 | Every even child is a newline. Odd child i is the `seg` of segment i / 2. |
| `Splitter.SidesShareStructure` | splitter/Splitter.cs:60-72 | Two documents of one asset have the same number of children, the same newlines and the same `seg` attributes (ids). They differ only in the language and the `seg` content. |
| `Splitter.OutputFileNameRoundTrip` | splitter/Splitter.cs:73 | `LanguageOf` recovers the language from `basename (language).xml`. Any name it accepts has exactly that form. |
| `Splitter.OutputFileNamesDiffer` | splitter/Splitter.cs:73 | For one base name, different languages give different file names. |
| `Splitter.Emit` | splitter/Splitter.cs:57-74 | Exactly one save: the log grows by `(basename (language).xml, Document(...))`. That file now holds the document and every other file is unchanged. |
| `Splitter.SplitWrites` | splitter/Splitter.cs:28-33 | A bundle of n assets gives exactly 2n saves. |
| `Splitter.SplitWritesShape` | splitter/Splitter.cs:28-33 | Save 2k is asset k's source-language document and save 2k+1 its target-language document. Both use the basename `fileName(input)-fileName(original)`. |
| `Splitter.SplitDocumentsSurvive` | splitter/Splitter.cs:28-33 | When all output names differ, each asset's source and target documents are what their files hold afterwards. |
| `Splitter.SameLanguageTargetWins` | splitter/Splitter.cs:31-32 | If an asset's two languages are equal, both sides go to one file and the target side overwrites the source side. |
| `Splitter.Split` | splitter/Splitter.cs:20-34 | An empty bundle fails with `Contains no usable contents: <filename>` and saves nothing, leaving the files unchanged. Any other bundle succeeds: the log grows by exactly `SplitWrites`, and the files become the old files with those saves applied in order, so files the split does not write keep their contents. |
| `Files.LatestAppend` | splitter/Splitter.cs:73 | A later save to a path hides an earlier one. Saves to other paths do not matter. |
| `Files.LatestOfDistinct` | splitter/Splitter.cs:73 | When a batch of saves goes to distinct paths, every save in it is the latest for its path. |
| `Files.ApplyWritesLatest` | splitter/Splitter.cs:73 | After a sequence of saves, a path holds the document of its latest save. A path no save touches keeps exactly what it held, and exists afterwards only if it existed before. |
| `Files.FileStore.Save` | splitter/Splitter.cs:73 | Creates or overwrites one file and logs the save. It keeps the invariant that each file holds its latest save. |
| `Scenarios.ConvertPlainText` | splitter/Splitter.cs:93-95 | A single plain text run converts to one text node with that text. |
| `Scenarios.DeletedThenKept` | splitter/Splitter.cs:88-95 | A deleted "deleted" run followed by "kept" converts to the single text node "kept". |
| `Scenarios.TagBetweenTexts` | splitter/Splitter.cs:91-105 | In text, tag, other, text the tag keeps its position as an empty `tag` and the other run disappears. |
| `Scenarios.JobSegments` | splitter/Splitter.cs:64 | Of a serial-0 pair and a serial-1 pair, only the second gives a `seg`. |
| `Scenarios.JobDocument` | splitter/Splitter.cs:60-72 | The example document is a newline, `<seg id="1" xml:space="preserve">text</seg>` and a newline. |
| `Scenarios.JobNames` | splitter/Splitter.cs:30 | The example's basename is `job.xliff-doc.html`. Its files are `job.xliff-doc.html (en).xml` and `job.xliff-doc.html (fr).xml`. |
| `Scenarios.JobScenario` | splitter/Splitter.cs:20-34 | Splitting `job.xliff` writes the English document with "Hello" and then the French one with "Bonjour". The structural pair appears in neither. |
| `Scenarios.EmptyBundleScenario` | splitter/Splitter.cs:24-27 | An empty bundle fails with `Contains no usable contents: empty.xliff` and leaves the directory empty. |

## Left out

- Reading the input file (`ReaderManager.Current.Read`): the bundle it returns is a parameter of `Split`. Read failures belong to that library.
- XML serialisation and escaping by `XElement.Save` without formatting, and the bytes on disk. The model keeps the document tree and a `FileStore` holding the saved trees.
- Write failures: any exception from `XElement.Save` propagates out of `Emit` and `Split`. This covers I/O errors and text XML cannot carry, such as an inline text holding U+0001. Such a failure can leave the target file created or truncated, with part of a document in it. In the model `FileStore.Save` always succeeds and stores the whole tree.
- File identity is exact string equality on the output name, with no case folding or path normalisation. On a case-insensitive file system, `x (en-US).xml` and `x (en-us).xml` are one file, as are the outputs of assets whose original names differ only in case, and the later save overwrites the earlier. `OutputFileNamesDiffer` and `SplitDocumentsSurvive` speak of distinct name strings, not distinct files on such a system.
- `Path.GetFileName` is a platform library call. It is the function parameter `fileNameOf` of `Split`, and nothing is assumed about it.
- The numeric value of `InlineProperty.Del` is defined by the reader library. The model uses the bit `0x2`, and every property depends only on the test `property & Del != 0`.
- An inline tag's data (`InlineTag`'s name) is carried in the model and discarded on output, as the source does. The other fields of the library's tag are not modelled.
- The diagnostic for unknown run kinds, printed only in debug builds, has no effect on the nodes and is not modelled.
- The `Verbose` property is set but never read by the splitter, so it is not modelled.
- `splitter/Program.cs` is not part of this model. It handles option parsing, glob expansion and per-file error reporting.
- `Split` materialising the assets as a list is not modelled. The assets are already a sequence.
