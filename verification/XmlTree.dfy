/** The document tree as values, and the errors of a parse (drivers/Mach3/tinyxml2.h:114, 519-544). */
module XmlTree {

  datatype Attribute = Attribute(name: string, value: string)

  datatype Node =
    | Element(name: string, attributes: seq<Attribute>, children: seq<Node>)
    | Text(value: string, cdata: bool)
    | Comment(value: string)
    | Declaration(value: string)
    | Unknown(value: string)

  datatype Document = Document(bom: bool, children: seq<Node>)

  datatype XMLError =
    | ErrorParsingElement
    | ErrorParsingAttribute
    | ErrorParsingText
    | ErrorParsingCData
    | ErrorParsingComment
    | ErrorParsingDeclaration
    | ErrorParsingUnknown
    | ErrorEmptyDocument
    | ErrorMismatchedElement
    | ErrorParsing
    | ElementDepthExceeded

  /** The two constructor options of a document (drivers/Mach3/tinyxml2.cpp:1984). */
  datatype Options = Options(processEntities: bool, collapseWhitespace: bool)

  const MAX_ELEMENT_DEPTH := 100
}
