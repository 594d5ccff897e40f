/**
 * The part of an XML document tree that the splitter builds: text nodes and
 * elements with qualified names, ordered attributes and ordered children.
 */
module Xml {

  /**
   * The namespaces the splitter's names live in: none, or the one the
   * reserved `xml:` prefix stands for (http://www.w3.org/XML/1998/namespace).
   */
  datatype Namespace = NoNamespace | XmlNamespace

  /** An expanded name: a namespace and a local name. */
  datatype QName = QName(ns: Namespace, local: string)

  datatype Attribute = Attribute(name: QName, value: string)

  datatype Node =
    | Text(value: string)
    | Element(name: QName, attributes: seq<Attribute>, children: seq<Node>)

  /** An element named `name` with no attributes and no content. */
  predicate IsEmptyElement(n: Node, name: QName) {
    n == Element(name, [], [])
  }
}
