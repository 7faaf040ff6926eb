/** The query engine of search.js (`doSearch` without its DOM reads and its
    call to `display`): trim the raw query, stop if it is blank, split it on
    white-space runs, normalize each piece, drop empty tokens, then keep, in
    store order, the documents that pass the liveness filter and contain every
    token in the selected field(s). */
module QueryEngine {
  import Seqs
  import Text
  import N = Normalizer
  import opened DocumentStore

  /** The `scope` radio group: `title`, `body` or `all`. */
  datatype Scope = Title | Body | AnyField

  /** The `liveFilter` radio group: `all`, `onlyLive` or `noLive`. */
  datatype LiveFilter = AllDocs | OnlyLive | NoLive

  // ---------------------------------------------------------------------
  // Reference definitions of what a search selects
  // ---------------------------------------------------------------------

  /** Some fragment of the field contains `token`. */
  ghost predicate FieldContains(fragments: seq<string>, token: string)
  {
    exists j :: 0 <= j < |fragments| && Text.IsSubstring(token, fragments[j])
  }

  ghost predicate TokenInScope(d: Doc, token: string, scope: Scope)
  {
    match scope
    case Title => FieldContains(d.normalizedTitle, token)
    case Body => FieldContains(d.normalizedBody, token)
    case AnyField => FieldContains(d.normalizedTitle, token) || FieldContains(d.normalizedBody, token)
  }

  ghost predicate LivenessAdmits(d: Doc, live: LiveFilter)
  {
    && (live == OnlyLive ==> d.raw.live)
    && (live == NoLive ==> !d.raw.live)
  }

  /** A document is selected when the liveness filter admits it and every
      token occurs in some fragment of the field(s) the scope names. */
  ghost predicate Selected(d: Doc, tokens: seq<string>, scope: Scope, live: LiveFilter)
  {
    && LivenessAdmits(d, live)
    && forall k :: 0 <= k < |tokens| ==> TokenInScope(d, tokens[k], scope)
  }

  // ---------------------------------------------------------------------
  // The engine
  // ---------------------------------------------------------------------

  /** The liveness test of the document filter: `onlyLive` refuses videos
      that are not live, `noLive` refuses live ones, anything else admits
      every video. */
  function PassesLive(d: Doc, live: LiveFilter): (r: bool)
    ensures r <==> LivenessAdmits(d, live)
  {
    if live == OnlyLive && !d.Live() then false
    else if live == NoLive && d.Live() then false
    else true
  }

  /** `fragments.some(kw => kw.includes(token))`: some fragment contains the
      token. */
  function SomeIncludes(fragments: seq<string>, token: string): (r: bool)
    ensures r <==> FieldContains(fragments, token)
  {
    if fragments == [] then false
    else
      FieldContainsCons(fragments, token);
      Text.Includes(fragments[0], token) || SomeIncludes(fragments[1..], token)
  }

  lemma FieldContainsCons(fragments: seq<string>, token: string)
    requires fragments != []
    ensures FieldContains(fragments, token)
        <==> Text.IsSubstring(token, fragments[0]) || FieldContains(fragments[1..], token)
  {
    if FieldContains(fragments, token) && !Text.IsSubstring(token, fragments[0]) {
      var j :| 0 <= j < |fragments| && Text.IsSubstring(token, fragments[j]);
      assert fragments[1..][j - 1] == fragments[j];
    }
    if FieldContains(fragments[1..], token) {
      var j :| 0 <= j < |fragments[1..]| && Text.IsSubstring(token, fragments[1..][j]);
      assert fragments[j + 1] == fragments[1..][j];
    }
  }

  /** The per-token test: `inTitle`, `inBody`, or either, by scope. It holds
      exactly when the token occurs in the field(s) the scope names. */
  function TokenMatches(d: Doc, token: string, scope: Scope): (r: bool)
    ensures r <==> TokenInScope(d, token, scope)
  {
    var inTitle := SomeIncludes(d.normalizedTitle, token);
    var inBody := SomeIncludes(d.normalizedBody, token);
    if scope == Title then inTitle
    else if scope == Body then inBody
    else inTitle || inBody
  }

  /** `tokens.every(...)`: every token, the empty list included, occurs in
      the scope's field(s). */
  function EveryToken(d: Doc, tokens: seq<string>, scope: Scope): (r: bool)
    ensures r <==> forall k :: 0 <= k < |tokens| ==> TokenInScope(d, tokens[k], scope)
  {
    if tokens == [] then true
    else
      AllTokensCons(d, tokens, scope);
      TokenMatches(d, tokens[0], scope) && EveryToken(d, tokens[1..], scope)
  }

  lemma AllTokensCons(d: Doc, tokens: seq<string>, scope: Scope)
    requires tokens != []
    ensures (forall k :: 0 <= k < |tokens| ==> TokenInScope(d, tokens[k], scope))
        <==> TokenInScope(d, tokens[0], scope)
             && forall k :: 0 <= k < |tokens[1..]| ==> TokenInScope(d, tokens[1..][k], scope)
  {
    if forall k :: 0 <= k < |tokens[1..]| ==> TokenInScope(d, tokens[1..][k], scope) {
      forall k | 0 <= k < |tokens|
        ensures TokenInScope(d, tokens[k], scope) || k == 0
      {
        if k > 0 {
          assert tokens[k] == tokens[1..][k - 1];
        }
      }
    }
  }

  /** The callback given to `docs.filter`: it keeps exactly the documents
      the reference definition selects. */
  function Keep(d: Doc, tokens: seq<string>, scope: Scope, live: LiveFilter): (r: bool)
    ensures r <==> Selected(d, tokens, scope, live)
  {
    PassesLive(d, live) && EveryToken(d, tokens, scope)
  }

  function Keeper(tokens: seq<string>, scope: Scope, live: LiveFilter): Doc -> bool
  {
    d => Keep(d, tokens, scope, live)
  }

  lemma KeeperIff(tokens: seq<string>, scope: Scope, live: LiveFilter)
    ensures forall d :: Keeper(tokens, scope, live)(d) <==> Selected(d, tokens, scope, live)
  {
  }

  /** `docs.filter(...)` over the store, for already computed tokens: the
      selected documents of the store, and no others. */
  function FilterDocs(docs: seq<Doc>, tokens: seq<string>, scope: Scope, live: LiveFilter): (r: seq<Doc>)
    ensures |r| <= |docs|
    ensures forall d :: d in r <==> d in docs && Selected(d, tokens, scope, live)
  {
    KeeperIff(tokens, scope, live);
    Seqs.Filter(docs, Keeper(tokens, scope, live))
  }

  function Normalizing(u: N.UnicodeTables): string -> string
  {
    p => N.Normalize(u, p)
  }

  function NonEmpty(): string -> bool
  {
    t => t != []
  }

  /** `trimmed.split(/\s+/).map(normalize).filter(t => t)`. */
  function Tokenize(u: N.UnicodeTables, trimmed: string): (tokens: seq<string>)
    ensures forall k :: 0 <= k < |tokens| ==> tokens[k] != []
  {
    var tokens := Seqs.Filter(Seqs.Map(Text.Split(trimmed), Normalizing(u)), NonEmpty());
    assert forall k :: 0 <= k < |tokens| ==> tokens[k] in tokens && NonEmpty()(tokens[k]);
    tokens
  }

  /** Every token is the normalization of a piece and is non-empty, and every
      non-empty normalization of a piece is a token. */
  lemma TokenizeMembers(u: N.UnicodeTables, trimmed: string)
    ensures forall t ::
      t in Tokenize(u, trimmed) <==> t != [] && exists p :: p in Text.Split(trimmed) && N.Normalize(u, p) == t
  {
    var pieces := Text.Split(trimmed);
    var normalized := Seqs.Map(pieces, Normalizing(u));
    forall t
      ensures t in normalized <==> exists p :: p in pieces && N.Normalize(u, p) == t
    {
      if t in normalized {
        var k :| 0 <= k < |normalized| && normalized[k] == t;
        assert pieces[k] in pieces;
      }
      if exists p :: p in pieces && N.Normalize(u, p) == t {
        var p :| p in pieces && N.Normalize(u, p) == t;
        var k :| 0 <= k < |pieces| && pieces[k] == p;
        assert normalized[k] == t;
      }
    }
  }

  /** The tokens of a raw query: the non-empty normalizations of the pieces
      of the trimmed query. */
  function QueryTokens(u: N.UnicodeTables, raw: string): (tokens: seq<string>)
    ensures forall t ::
      t in tokens <==> t != [] && exists p :: p in Text.Split(Text.Trim(raw)) && N.Normalize(u, p) == t
  {
    TokenizeMembers(u, Text.Trim(raw));
    Tokenize(u, Text.Trim(raw))
  }

  /** `doSearch`: `None` is the early return for a blank query, which leaves
      the results on screen untouched; `Some(results)` is what is handed to
      `display`, possibly empty. */
  function Search(u: N.UnicodeTables, docs: seq<Doc>, raw: string, scope: Scope, live: LiveFilter)
    : (r: Seqs.Option<seq<Doc>>)
    ensures r.None? <==> Text.AllSpace(raw)
    ensures r.Some? ==> |r.value| <= |docs|
  {
    var trimmed := Text.Trim(raw);
    if |trimmed| < 1 then Seqs.None
    else Seqs.Some(FilterDocs(docs, Tokenize(u, trimmed), scope, live))
  }

  // ---------------------------------------------------------------------
  // Properties of a search
  // ---------------------------------------------------------------------

  /** A non-blank query returns exactly the selected documents, in store
      order, each as often as it is stored: nothing is added, duplicated or
      reordered. */
  lemma SearchSelects(u: N.UnicodeTables, docs: seq<Doc>, raw: string, scope: Scope, live: LiveFilter)
    requires !Text.AllSpace(raw)
    ensures Search(u, docs, raw, scope, live).Some?
    ensures var r := Search(u, docs, raw, scope, live).value;
      var tokens := QueryTokens(u, raw);
      && Seqs.IsSubsequence(r, docs)
      && (forall d :: d in r <==> d in docs && Selected(d, tokens, scope, live))
      && (forall d :: multiset(r)[d] == if Selected(d, tokens, scope, live) then multiset(docs)[d] else 0)
  {
    var tokens := QueryTokens(u, raw);
    KeeperIff(tokens, scope, live);
    Seqs.FilterIsSubsequence(docs, Keeper(tokens, scope, live));
    Seqs.FilterMultiplicity(docs, Keeper(tokens, scope, live));
  }

  /** A stored document that the reference definition selects is found. */
  lemma SelectedIsFound(u: N.UnicodeTables, docs: seq<Doc>, raw: string, scope: Scope, live: LiveFilter, d: Doc)
    requires !Text.AllSpace(raw)
    requires d in docs && Selected(d, QueryTokens(u, raw), scope, live)
    ensures d in Search(u, docs, raw, scope, live).value
  {
    SearchSelects(u, docs, raw, scope, live);
  }

  /** `onlyLive` returns live documents only, `noLive` non-live ones only,
      and `all` lets every document that matches the tokens through. */
  lemma SearchLiveness(u: N.UnicodeTables, docs: seq<Doc>, raw: string, scope: Scope, live: LiveFilter)
    requires !Text.AllSpace(raw)
    ensures var r := Search(u, docs, raw, scope, live).value;
      var tokens := QueryTokens(u, raw);
      && (live == OnlyLive ==> forall d :: d in r ==> d.raw.live)
      && (live == NoLive ==> forall d :: d in r ==> !d.raw.live)
      && (live == AllDocs ==>
            forall d :: d in r <==> d in docs && forall k :: 0 <= k < |tokens| ==> TokenInScope(d, tokens[k], scope))
  {
    SearchSelects(u, docs, raw, scope, live);
  }

  /** Scope `all` returns everything scope `title` or scope `body` returns,
      in the same relative order. */
  lemma {:induction false} ScopeAnyFieldWidens(u: N.UnicodeTables, docs: seq<Doc>, raw: string, live: LiveFilter)
    requires !Text.AllSpace(raw)
    ensures Seqs.IsSubsequence(Search(u, docs, raw, Title, live).value, Search(u, docs, raw, AnyField, live).value)
    ensures Seqs.IsSubsequence(Search(u, docs, raw, Body, live).value, Search(u, docs, raw, AnyField, live).value)
  {
    var tokens := QueryTokens(u, raw);
    KeeperIff(tokens, Title, live);
    KeeperIff(tokens, Body, live);
    KeeperIff(tokens, AnyField, live);
    Seqs.FilterMonotone(docs, Keeper(tokens, Title, live), Keeper(tokens, AnyField, live));
    Seqs.FilterMonotone(docs, Keeper(tokens, Body, live), Keeper(tokens, AnyField, live));
  }

  /** Requiring more tokens never returns more documents: whatever a search
      for `more` returns, a search for `tokens` (all of which occur in
      `more`) returns too, in the same relative order. */
  lemma {:induction false} MoreTokensNarrow(docs: seq<Doc>, tokens: seq<string>, more: seq<string>, scope: Scope, live: LiveFilter)
    requires forall t :: t in tokens ==> t in more
    ensures Seqs.IsSubsequence(FilterDocs(docs, more, scope, live), FilterDocs(docs, tokens, scope, live))
  {
    KeeperIff(tokens, scope, live);
    KeeperIff(more, scope, live);
    forall d | Selected(d, more, scope, live)
      ensures Selected(d, tokens, scope, live)
    {
      forall k | 0 <= k < |tokens|
        ensures TokenInScope(d, tokens[k], scope)
      {
        assert tokens[k] in more;
        var j :| 0 <= j < |more| && more[j] == tokens[k];
      }
    }
    Seqs.FilterMonotone(docs, Keeper(more, scope, live), Keeper(tokens, scope, live));
  }

  /** The tokens of a non-blank query: the white-space-free, non-empty pieces
      of the trimmed query, normalized, with the pieces that normalize to the
      empty string left out. */
  lemma QueryTokensSpec(u: N.UnicodeTables, raw: string)
    requires !Text.AllSpace(raw)
    ensures var pieces := Text.Split(Text.Trim(raw));
      && (forall k :: 0 <= k < |pieces| ==> pieces[k] != [] && Text.NoSpace(pieces[k]))
      && (forall t :: t in QueryTokens(u, raw) <==> t != [] && exists p :: p in pieces && N.Normalize(u, p) == t)
  {
    Text.SplitTrimmedPiecesNonEmpty(Text.Trim(raw));
  }

  /** A one-word query has one token, the word normalized, unless that is
      empty. */
  lemma QueryTokensOfWord(u: N.UnicodeTables, w: string)
    requires w != [] && Text.NoSpace(w)
    ensures QueryTokens(u, w) == if N.Normalize(u, w) == [] then [] else [N.Normalize(u, w)]
  {
    assert [] + w + [] == w;
    Text.TrimOfPadded([], w, []);
    Text.SplitWord(w);
    var m := Seqs.Map([w], Normalizing(u));
    assert m == [N.Normalize(u, w)];
    assert Seqs.Filter(m, NonEmpty()) == (if NonEmpty()(m[0]) then [m[0]] else []) + Seqs.Filter(m[1..], NonEmpty());
    assert m[1..] == [];
  }

  function LiveTest(live: LiveFilter): Doc -> bool
  {
    d => PassesLive(d, live)
  }

  /** A non-blank query without a single token (every piece normalizes to
      the empty string, as a query made only of combining marks does) is not
      the blank-query no-op: it returns every document the liveness filter
      admits. */
  lemma NoTokensKeepsLivenessOnly(u: N.UnicodeTables, docs: seq<Doc>, raw: string, scope: Scope, live: LiveFilter)
    requires !Text.AllSpace(raw)
    requires QueryTokens(u, raw) == []
    ensures Search(u, docs, raw, scope, live) == Seqs.Some(Seqs.Filter(docs, LiveTest(live)))
  {
    Seqs.FilterCongruent(docs, Keeper([], scope, live), LiveTest(live));
  }

  /** Tokenizing a trimmed query followed by white space and one more word
      yields the query's tokens followed by the word's. */
  lemma TokenizeAppendWord(u: N.UnicodeTables, core: string, sp: string, w: string)
    requires core != [] && !Text.IsSpace(core[|core| - 1])
    requires sp != [] && Text.AllSpace(sp)
    requires w != [] && Text.NoSpace(w)
    ensures Tokenize(u, core + sp + w) == Tokenize(u, core) + Tokenize(u, w)
  {
    Text.SplitAtRun(core, sp, w);
    Seqs.MapConcat(Text.Split(core), Text.Split(w), Normalizing(u));
    Seqs.FilterConcat(Seqs.Map(Text.Split(core), Normalizing(u)), Seqs.Map(Text.Split(w), Normalizing(u)), NonEmpty());
  }

  /** Appending a space and a word to a non-blank query appends the word's
      tokens to the query's. */
  lemma QueryTokensAppendWord(u: N.UnicodeTables, raw: string, w: string)
    requires !Text.AllSpace(raw)
    requires w != [] && Text.NoSpace(w)
    ensures !Text.AllSpace(raw + " " + w)
    ensures QueryTokens(u, raw + " " + w) == QueryTokens(u, raw) + Tokenize(u, w)
  {
    var core := Text.Trim(raw);
    var sp := Text.TrailingRun(raw) + " ";
    Text.TrimAppendWord(raw, w);
    assert core != [] && !Text.IsSpace(core[|core| - 1]);
    assert sp != [] && Text.AllSpace(sp);
    TokenizeAppendWord(u, core, sp, w);
    assert QueryTokens(u, raw + " " + w) == Tokenize(u, core + sp + w);
  }

  /** A non-blank query filters the store by its tokens. */
  lemma SearchFiltersByTokens(u: N.UnicodeTables, docs: seq<Doc>, raw: string, scope: Scope, live: LiveFilter)
    requires !Text.AllSpace(raw)
    ensures Search(u, docs, raw, scope, live) == Seqs.Some(FilterDocs(docs, QueryTokens(u, raw), scope, live))
  {
  }

  /** Typing one more word after a non-blank query never enlarges the
      result: the new results are among the old ones, in the same order. */
  lemma AddingWordNarrows(u: N.UnicodeTables, docs: seq<Doc>, raw: string, w: string, scope: Scope, live: LiveFilter)
    requires !Text.AllSpace(raw)
    requires w != [] && Text.NoSpace(w)
    ensures QueryTokens(u, raw + " " + w) == QueryTokens(u, raw) + Tokenize(u, w)
    ensures Search(u, docs, raw + " " + w, scope, live).Some?
    ensures Seqs.IsSubsequence(Search(u, docs, raw + " " + w, scope, live).value, Search(u, docs, raw, scope, live).value)
  {
    QueryTokensAppendWord(u, raw, w);
    var tokens := QueryTokens(u, raw);
    var more := tokens + Tokenize(u, w);
    assert forall t :: t in tokens ==> t in more;
    MoreTokensNarrow(docs, tokens, more, scope, live);
    SearchFiltersByTokens(u, docs, raw + " " + w, scope, live);
    SearchFiltersByTokens(u, docs, raw, scope, live);
  }
}
