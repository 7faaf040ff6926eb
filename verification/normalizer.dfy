/** The normalizer of search.js: canonical decomposition (NFD), removal of the
    combining diacritical marks block, then lower-casing. The Unicode tables
    behind NFD and lower-casing belong to the host and stay abstract; the mark
    removal between them is modelled exactly. */
module Normalizer {
  import Seqs

  /** The host's `String.prototype.normalize('NFD')` and
      `String.prototype.toLowerCase`, as opaque string-to-string functions. */
  datatype UnicodeTables = UnicodeTables(nfd: string -> string, lower: string -> string)

  /** The block U+0300..U+036F, Combining Diacritical Marks, that the
      regular expression `/[\u0300-\u036f]/g` matches. */
  predicate IsCombiningMark(c: char)
  {
    '\U{0300}' <= c <= '\U{036F}'
  }

  predicate NoMarks(s: string)
  {
    forall i :: 0 <= i < |s| ==> !IsCombiningMark(s[i])
  }

  /** `s.replace(/[\u0300-\u036f]/g, '')`: every combining mark goes, every
      other code point stays, in order and with its multiplicity. */
  function StripMarks(s: string): (r: string)
    ensures NoMarks(r)
    ensures NoMarks(s) ==> r == s
    ensures |r| <= |s|
  {
    if s == [] then []
    else (if IsCombiningMark(s[0]) then [] else [s[0]]) + StripMarks(s[1..])
  }

  /** Every code point other than a mark survives stripping, as often as it
      occurs. */
  lemma StripMarksMultiplicity(s: string)
    ensures forall c :: multiset(StripMarks(s))[c] == if IsCombiningMark(c) then 0 else multiset(s)[c]
  {
    forall c
      ensures multiset(StripMarks(s))[c] == if IsCombiningMark(c) then 0 else multiset(s)[c]
    {
      StripMarksCount(s, c);
    }
  }

  lemma {:induction false} StripMarksCount(s: string, c: char)
    ensures multiset(StripMarks(s))[c] == if IsCombiningMark(c) then 0 else multiset(s)[c]
  {
    if s != [] {
      var rest := s[1..];
      StripMarksCount(rest, c);
      assert s == [s[0]] + rest;
      if IsCombiningMark(s[0]) {
        assert StripMarks(s) == StripMarks(rest);
      } else {
        assert StripMarks(s) == [s[0]] + StripMarks(rest);
      }
    }
  }

  /** Stripping marks acts piecewise on a concatenation. */
  lemma {:induction false} StripMarksConcat(a: string, b: string)
    ensures StripMarks(a + b) == StripMarks(a) + StripMarks(b)
  {
    if a == [] {
      assert a + b == b;
    } else {
      assert (a + b)[1..] == a[1..] + b;
      StripMarksConcat(a[1..], b);
      assert StripMarks(a + b) == (if IsCombiningMark(a[0]) then [] else [a[0]]) + StripMarks(a[1..] + b);
    }
  }

  /** LATIN CAPITAL LETTER I WITH DOT ABOVE. Lower-casing maps it,
      unconditionally, to `i` followed by the combining dot above U+0307. */
  const CapitalIWithDot: char := '\U{0130}'

  /** What the normalizer needs of the host's tables: NFD decomposes U+0130
      (into `I` and U+0307), and lower-casing brings in a combining mark only
      through U+0130. */
  ghost predicate HostTables(u: UnicodeTables)
  {
    && (forall s :: CapitalIWithDot !in u.nfd(s))
    && (forall s :: NoMarks(s) && CapitalIWithDot !in s ==> NoMarks(u.lower(s)))
  }

  /** `normalize(str)`: decompose, drop the diacritics, lower-case. */
  function Normalize(u: UnicodeTables, s: string): (r: string)
    ensures HostTables(u) ==> NoMarks(r)
  {
    var stripped := StripMarks(u.nfd(s));
    StripMarksMultiplicity(u.nfd(s));
    assert CapitalIWithDot in stripped ==> multiset(stripped)[CapitalIWithDot] > 0;
    u.lower(stripped)
  }

  /** Normalizing twice changes nothing more, when NFD and lower-casing both
      leave an already normalized string as it is. */
  lemma NormalizeIdempotent(u: UnicodeTables, s: string)
    requires HostTables(u)
    requires u.nfd(Normalize(u, s)) == Normalize(u, s)
    requires u.lower(Normalize(u, s)) == Normalize(u, s)
    ensures Normalize(u, Normalize(u, s)) == Normalize(u, s)
  {
    var n := Normalize(u, s);
    assert NoMarks(n);
    assert StripMarks(u.nfd(n)) == n;
  }

  /** `fragments.map(normalize)`, the load-time normalization of a field. */
  function NormalizeAll(u: UnicodeTables, fragments: seq<string>): (r: seq<string>)
    ensures |r| == |fragments|
    ensures forall j :: 0 <= j < |r| ==> r[j] == Normalize(u, fragments[j])
  {
    Seqs.Map(fragments, s => Normalize(u, s))
  }
}
