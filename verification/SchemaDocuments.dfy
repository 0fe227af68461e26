/** Schemas as a registry stores them: a content with its direct references, as a finite tree. */
module SchemaDocuments {
  datatype SchemaType = AVRO | JSON | PROTOBUF

  datatype SchemaDocument = SchemaDocument(
    kind: SchemaType,
    content: string,
    references: seq<DocumentReference>)

  datatype DocumentReference = DocumentReference(name: string, document: SchemaDocument)

  /** The number of documents on the longest path down the tree. */
  ghost function Height(doc: SchemaDocument): nat {
    1 + HighestOf(doc.references)
  }

  ghost function HighestOf(refs: seq<DocumentReference>): (h: nat)
    ensures forall i :: 0 <= i < |refs| ==> Height(refs[i].document) <= h
  {
    if refs == [] then 0
    else
      var first, rest := Height(refs[0].document), HighestOf(refs[1..]);
      assert forall i :: 0 < i < |refs| ==> refs[i] == refs[1..][i - 1];
      if first > rest then first else rest
  }
}
