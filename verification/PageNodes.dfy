/**
 The blocks of a page and the nodes composed from them.
 */
module PageNodes {

  /** A line of text, as the spans in it. */
  type Line = seq<int>

  /** `Chrome` stands for headers, footers, page numbers, aside texts and page footnotes. */
  datatype Kind =
    | Text | RefText | ListMarker | Caption | Footnote | Chrome | OtherKind
    | ImageBody | ImageBlockBody | TableBody | ChartBody | CodeBody

  datatype Block = Block(index: nat, kind: Kind, lines: seq<Line>, mergePrev: bool, crossPage: bool)

  datatype Node =
    | Leaf(block: Block)
    | List(marker: Block, refText: bool, items: seq<Block>)
    | Visual(body: Block, captions: seq<Block>, footnotes: seq<Block>, subImages: seq<nat>)
    | Tombstone(index: nat)

  function NodeIndex(node: Node): nat {
    match node
    case Leaf(block) => block.index
    case List(marker, _, _) => marker.index
    case Visual(body, _, _, _) => body.index
    case Tombstone(index) => index
  }
}
