/**
 * The notebook as the converter sees it once the document library has loaded
 * and copied it: cells with their source, metadata, attachments and outputs.
 * Dictionaries whose key order matters are kept as sequences of pairs.
 */
module Notebook {
  import opened Wrappers

  /** A mime bundle: mime type and payload, in the dictionary's key order. */
  type MimeBundle = seq<(string, string)>

  predicate HasKey(b: MimeBundle, k: string) {
    exists i :: 0 <= i < |b| && b[i].0 == k
  }

  /** `k in bundle` then `bundle[k]`. */
  function Lookup(b: MimeBundle, k: string): (r: Option<string>)
    ensures r.Some? <==> HasKey(b, k)
    ensures r.Some? ==> exists i :: 0 <= i < |b| && b[i] == (k, r.value)
  {
    if b == [] then None
    else if b[0].0 == k then Some(b[0].1)
    else
      var r := Lookup(b[1..], k);
      assert forall i :: 0 <= i < |b| - 1 ==> b[1..][i] == b[i + 1];
      r
  }

  /** One declared interaction: `"click" in goal` and `"value" in goal` decide the handler kinds. */
  datatype Goal = Goal(id: string, selector: string, click: bool, value: Option<string>)

  /** The metadata keys the converter reads; an absent key is `None`. */
  datatype Metadata = Metadata(
    includeOutput: Option<bool>,
    gloss: Option<map<string, string>>,
    formulas: Option<map<string, string>>,
    goals: Option<seq<Goal>>,
    graderImport: Option<string>,
    graderFunction: Option<string>,
    graderId: Option<string>,
    graderAnswer: Option<string>,
    tags: Option<seq<string>>)

  /** A code-cell output: its `data` bundle and its raw `text`, either of which may be absent. */
  datatype Output = Output(data: Option<MimeBundle>, text: Option<string>)

  datatype CellKind = Markdown | Code | Raw

  datatype Cell = Cell(
    kind: CellKind,
    source: string,
    metadata: Metadata,
    attachments: Option<map<string, MimeBundle>>,
    outputs: seq<Output>)
}
