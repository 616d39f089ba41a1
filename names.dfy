/** The values the node tree is built from: optional values, qualified names and
    namespace contexts. The node tree only consults a namespace context through its
    two lookups, so a context is modelled as the two tables behind them. */
module Names {

  datatype Option<+T> = None | Some(value: T)

  /** A qualified name: a local part and an optional namespace URI. Two names are
      equal exactly when both parts are, and the parts, like prefixes and URIs
      everywhere in this model, are compared character by character, with no
      Unicode canonical equivalence; an absent URI differs from every present one. */
  datatype QName = QName(localName: string, uri: Option<string>)

  /** A snapshot of namespace bindings. `uris` answers the `[prefix]` subscript and
      `prefixes` answers `resolvePrefix(forURI:)`; how the two tables relate is decided
      where contexts are built, which is not part of this model. */
  datatype NamespaceContext = NamespaceContext(uris: map<string, string>, prefixes: map<string, string>)

  const XmlNamespace: string := "http://www.w3.org/XML/1998/namespace"

  /** The library's distinguished default context. Nothing in the model depends on
      what it binds. */
  const DefaultContext: NamespaceContext :=
    NamespaceContext(map["xml" := XmlNamespace], map[XmlNamespace := "xml"])
}
