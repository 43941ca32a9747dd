/** The read-only view of a parsed XML document that the risk flattener works on. */
module XmlModel {

  /** One node of a parsed XML document: its name, its attributes (attribute name to
      attribute text; XML forbids two attributes of one element with the same name) and
      its child nodes in document order.  Nodes that are not elements (comments, text,
      CDATA) carry their fixed names such as "#comment" and no attributes, because their
      attribute collection is null. */
  datatype Node = Node(name: string, attrs: map<string, string>, children: seq<Node>)

  /** Any object handed to a flattening plugin: an XML node, or an object of some
      other type (a JSON token, a string, a number ...). */
  datatype HostObject = XmlNode(node: Node) | OtherObject
}
