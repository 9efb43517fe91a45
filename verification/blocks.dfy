/** The block context: what the processing passes take out of the Org text
    and the restore passes put back into the rendered Markdown. Entries of
    kinds whose shape is defined outside this model are kept as text. */
module Blocks {
  /** A source block as it was written, with the language named in its header. */
  datatype CodeBlock = CodeBlock(original: string, lang: string)

  /** The trimmed payload of one `#+HTML:` line and its position among them. */
  datatype HtmlBlock = HtmlBlock(html: string, index: nat)

  datatype CalloutBlock = CalloutBlock(calloutType: string, content: string, index: nat)

  datatype ExampleBlock = ExampleBlock(content: string)

  datatype BlockContext = BlockContext(
    codeBlocks: seq<CodeBlock>,
    latexBlocks: seq<string>,
    htmlBlocks: seq<HtmlBlock>,
    jsxBlocks: seq<string>,
    exportHtmlBlocks: seq<string>,
    exportBlocks: seq<string>,
    calloutBlocks: seq<CalloutBlock>,
    exampleBlocks: seq<ExampleBlock>)

  /** `createBlockContext`: every list empty. */
  function EmptyContext(): BlockContext {
    BlockContext([], [], [], [], [], [], [], [])
  }

  /** `b` is `a` with only its code-block list changed. */
  predicate OnlyCodeChanged(a: BlockContext, b: BlockContext) {
    b.(codeBlocks := a.codeBlocks) == a
  }

  /** `b` is `a` with only its HTML-block list changed. */
  predicate OnlyHtmlChanged(a: BlockContext, b: BlockContext) {
    b.(htmlBlocks := a.htmlBlocks) == a
  }

  /** The text left by a processing pass and the context it filled. */
  datatype Processed = Processed(text: string, ctx: BlockContext)
}
