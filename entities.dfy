/** The remote entities the sync engine consumes, reduced to the fields it
    reads (model.py: YuqueBook, YuqueDocs, YuqueContributor). Timestamps are
    kept as the server's strings; they are compared, never parsed. */
module Entities {

  /** A knowledge base ("book"). */
  datatype Book = Book(
    id: int,
    name: string,
    slug: string,
    description: string,
    createdAt: string,
    updatedAt: string)

  /** One document as the listing call returns it. `user` and `lastEditor`
      are the creator and last-editor objects as the header prints them. */
  datatype Doc = Doc(
    id: int,
    slug: string,
    title: string,
    kind: string,
    description: string,
    customDescription: string,
    createdAt: string,
    updatedAt: string,
    user: string,
    lastEditor: string)

  /** A contributor as the document overview lists it. */
  datatype Contributor = Contributor(name: string, login: string)

  /** The only document kind that is exported; folder nodes and others are not. */
  const ExportableKind: string := "Doc"

  predicate Exportable(doc: Doc) {
    doc.kind == ExportableKind
  }
}
