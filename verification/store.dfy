/** The document store: the video records of the static index, each extended
    once at load time with the normalized form of its title and body
    fragments, kept in feed order and never changed afterwards. */
module DocumentStore {
  import Seqs
  import N = Normalizer

  /** A record as the index delivers it. `at` is the publication date, kept
      as the text the feed gives; `duration` is in seconds. */
  datatype RawDoc = RawDoc(
    id: string,
    titleRaw: string,
    title: seq<string>,
    body: seq<string>,
    live: bool,
    at: string,
    duration: nat)

  /** A loaded record: the raw fields plus one normalized string per title
      fragment and per body fragment. */
  datatype Doc = Doc(raw: RawDoc, normalizedTitle: seq<string>, normalizedBody: seq<string>)
  {
    predicate Live() { raw.live }
  }

  /** The load-time invariant: each normalized field is the normalizer
      applied fragment by fragment to the raw field, same count, same order. */
  ghost predicate NormalizedFrom(u: N.UnicodeTables, d: Doc)
  {
    && |d.normalizedTitle| == |d.raw.title|
    && |d.normalizedBody| == |d.raw.body|
    && (forall j :: 0 <= j < |d.raw.title| ==> d.normalizedTitle[j] == N.Normalize(u, d.raw.title[j]))
    && (forall j :: 0 <= j < |d.raw.body| ==> d.normalizedBody[j] == N.Normalize(u, d.raw.body[j]))
  }

  /** `{...doc, normalizedTitle: doc.title.map(normalize),
      normalizedBody: doc.body.map(normalize)}`. */
  function LoadDoc(u: N.UnicodeTables, d: RawDoc): (r: Doc)
    ensures r.raw == d
    ensures NormalizedFrom(u, r)
  {
    Doc(d, N.NormalizeAll(u, d.title), N.NormalizeAll(u, d.body))
  }

  /** `payload.docs.map(...)`: one loaded record per raw record, in feed
      order, each carrying its raw record unchanged. */
  function Load(u: N.UnicodeTables, raws: seq<RawDoc>): (store: seq<Doc>)
    ensures |store| == |raws|
    ensures forall i :: 0 <= i < |raws| ==> store[i].raw == raws[i] && NormalizedFrom(u, store[i])
  {
    Seqs.Map(raws, d => LoadDoc(u, d))
  }
}
