/** Worked examples of the search on a one-video store, under a small
    stand-in for the host's Unicode tables: NFD that only decomposes `é`,
    and lower-casing that only maps ASCII capitals. */
module Scenario {
  import Seqs
  import N = Normalizer
  import opened DocumentStore
  import opened QueryEngine

  function ToyNfd(s: string): string
  {
    if s == [] then []
    else (if s[0] == 'é' then ['e', '\U{0301}'] else [s[0]]) + ToyNfd(s[1..])
  }

  function LowerChar(c: char): char
  {
    if 'A' <= c <= 'Z' then (c as int + 32) as char else c
  }

  function AsciiLower(s: string): string
  {
    Seqs.Map(s, LowerChar)
  }

  function Toy(): N.UnicodeTables
  {
    N.UnicodeTables(ToyNfd, AsciiLower)
  }

  lemma ToyNfdCafe()
    ensures ToyNfd("Café") == "Cafe\U{0301}"
  {
    assert ToyNfd("é") == "e\U{0301}";
    assert ToyNfd("fé") == "fe\U{0301}";
    assert ToyNfd("afé") == "afe\U{0301}";
  }

  lemma StripCafe()
    ensures N.StripMarks("Cafe\U{0301}") == "Cafe"
  {
    assert N.StripMarks("\U{0301}") == "";
    assert N.StripMarks("e\U{0301}") == "e";
    assert N.StripMarks("fe\U{0301}") == "fe";
    assert N.StripMarks("afe\U{0301}") == "afe";
  }

  lemma LowerCafe()
    ensures AsciiLower("Cafe") == "cafe"
  {
  }

  lemma NormalizeCafe()
    ensures N.Normalize(Toy(), "Café") == "cafe"
  {
    ToyNfdCafe();
    StripCafe();
    LowerCafe();
  }

  lemma {:induction false} ToyNfdKeeps(s: string)
    requires forall i :: 0 <= i < |s| ==> s[i] != 'é'
    ensures ToyNfd(s) == s
  {
    if s != [] {
      ToyNfdKeeps(s[1..]);
      assert [s[0]] + s[1..] == s;
    }
  }

  /** Lower-case text without `é` or marks is already normalized. */
  lemma NormalizeLowerText(s: string)
    requires forall i :: 0 <= i < |s| ==> s[i] != 'é' && !N.IsCombiningMark(s[i]) && !('A' <= s[i] <= 'Z')
    ensures N.Normalize(Toy(), s) == s
  {
    ToyNfdKeeps(s);
    assert N.StripMarks(s) == s;
    assert AsciiLower(s) == s;
  }

  lemma LowerTitle()
    ensures AsciiLower("Intro to Go") == "intro to go"
  {
    LowerTitleAt("Intro to Go", "intro to go");
  }

  lemma LowerTitleAt(s: string, t: string)
    requires s == "Intro to Go" && t == "intro to go"
    ensures AsciiLower(s) == t
  {
    assert s[0] == 'I' && t[0] == 'i';
    assert s[9] == 'G' && t[9] == 'g';
    forall i | 0 <= i < |s|
      ensures AsciiLower(s)[i] == t[i]
    {
      if i != 0 && i != 9 {
        assert s[i] == t[i] && !('A' <= s[i] <= 'Z');
      }
    }
  }

  lemma TitleHasNoMarks()
    ensures N.StripMarks("Intro to Go") == "Intro to Go"
  {
    TitleHasNoMarksAt("Intro to Go");
  }

  lemma TitleHasNoMarksAt(s: string)
    requires s == "Intro to Go"
    ensures N.StripMarks(s) == s
  {
    forall i | 0 <= i < |s|
      ensures !N.IsCombiningMark(s[i])
    {
      assert s[i] <= 'z';
    }
  }

  lemma NormalizeTitle()
    ensures N.Normalize(Toy(), "Intro to Go") == "intro to go"
  {
    ToyNfdKeeps("Intro to Go");
    TitleHasNoMarks();
    LowerTitle();
  }

  function GoVideo(): Doc
  {
    LoadDoc(Toy(), RawDoc("x1", "Intro to Go", ["Intro to Go"], ["learn golang basics"], false, "2023-01-01", 125))
  }

  lemma GoVideoFields()
    ensures LikeGoVideo(GoVideo())
  {
    var d := GoVideo();
    assert NormalizedFrom(Toy(), d);
    assert d.raw.title == ["Intro to Go"] && d.raw.body == ["learn golang basics"];
    assert d.normalizedTitle[0] == N.Normalize(Toy(), "Intro to Go");
    assert d.normalizedBody[0] == N.Normalize(Toy(), "learn golang basics");
    NormalizeTitle();
    NormalizeBody();
    assert d.normalizedTitle == [d.normalizedTitle[0]];
    assert d.normalizedBody == [d.normalizedBody[0]];
  }

  lemma NormalizeBody()
    ensures N.Normalize(Toy(), "learn golang basics") == "learn golang basics"
  {
    NormalizeLowerText("learn golang basics");
  }

  /** The loaded video of the example, as far as the search sees it. */
  ghost predicate LikeGoVideo(d: Doc)
  {
    && d.normalizedTitle == ["intro to go"]
    && d.normalizedBody == ["learn golang basics"]
    && !d.raw.live
  }

  /** "go" with scope `all` finds the video: the title contains it. */
  lemma SearchGoAnyField(d: Doc, q: string)
    requires LikeGoVideo(d) && q == "go"
    ensures Search(Toy(), [d], q, AnyField, AllDocs) == Seqs.Some([d])
  {
    GoTokens(q);
    GoInTitle(d, q);
    FoundAlone(Toy(), d, q, [q], AnyField, AllDocs);
  }

  /** "go" with scope `body` finds it too: "golang" contains it. */
  lemma SearchGoBody(d: Doc, q: string)
    requires LikeGoVideo(d) && q == "go"
    ensures Search(Toy(), [d], q, Body, AllDocs) == Seqs.Some([d])
  {
    GoTokens(q);
    GoInBody(d, q);
    FoundAlone(Toy(), d, q, [q], Body, AllDocs);
  }

  /** With `onlyLive` nothing is found: the video is not live. */
  lemma SearchGoOnlyLive(d: Doc, q: string)
    requires LikeGoVideo(d) && q == "go"
    ensures Search(Toy(), [d], q, AnyField, OnlyLive) == Seqs.Some([])
  {
    assert q[0] == 'g';
    NotAdmittedAlone(Toy(), d, q, AnyField, OnlyLive);
  }

  /** With scope `all` each token may match in a different field: "intro"
      occurs only in the title and "basics" only in the body. */
  lemma SearchIntroBasics(d: Doc, q: string)
    requires LikeGoVideo(d) && q == "intro basics"
    ensures Search(Toy(), [d], q, AnyField, AllDocs) == Seqs.Some([d])
  {
    IntroBasicsTokens(q);
    IntroBasicsInFields(d);
    FoundAlone(Toy(), d, q, ["intro", "basics"], AnyField, AllDocs);
  }

  /** "café" with scope `all` finds nothing: its token "cafe" occurs in
      neither field. */
  lemma SearchCafeNothing(d: Doc, q: string)
    requires LikeGoVideo(d) && q == "café"
    ensures Search(Toy(), [d], q, AnyField, AllDocs) == Seqs.Some([])
  {
    CafeTokens(q);
    CafeNotInFields(d, "cafe");
    NotSelectedAlone(Toy(), d, q, ["cafe"], AnyField, AllDocs);
  }

  lemma CafeTokens(q: string)
    requires q == "café"
    ensures !Text.AllSpace(q)
    ensures QueryTokens(Toy(), q) == ["cafe"]
  {
    assert q[0] == 'c';
    assert Text.NoSpace(q) by {
      forall i | 0 <= i < |q|
        ensures !Text.IsSpace(q[i])
      {
        assert q[i] == 'c' || q[i] == 'a' || q[i] == 'f' || q[i] == 'é';
      }
    }
    NormalizeLowerCafe();
    QueryTokensOfWord(Toy(), q);
  }

  lemma NormalizeLowerCafe()
    ensures N.Normalize(Toy(), "café") == "cafe"
  {
    ToyNfdLowerCafe();
    StripLowerCafe();
    LowerLowerCafe();
  }

  lemma ToyNfdLowerCafe()
    ensures ToyNfd("café") == "cafe\U{0301}"
  {
    assert ToyNfd("é") == "e\U{0301}";
    assert ToyNfd("fé") == "fe\U{0301}";
    assert ToyNfd("afé") == "afe\U{0301}";
  }

  lemma StripLowerCafe()
    ensures N.StripMarks("cafe\U{0301}") == "cafe"
  {
    assert N.StripMarks("\U{0301}") == "";
    assert N.StripMarks("e\U{0301}") == "e";
    assert N.StripMarks("fe\U{0301}") == "fe";
    assert N.StripMarks("afe\U{0301}") == "afe";
  }

  lemma LowerLowerCafe()
    ensures AsciiLower("cafe") == "cafe"
  {
  }

  lemma CafeNotInFields(d: Doc, t: string)
    requires LikeGoVideo(d) && t == "cafe"
    ensures !Selected(d, [t], AnyField, AllDocs)
  {
    var title, body := d.normalizedTitle[0], d.normalizedBody[0];
    assert title == "intro to go" && body == "learn golang basics";
    assert t[0] !in title[..|title|];
    assert t[0] !in body[..16];
    NotSubstringByFirst(t, title, |title|);
    NotSubstringByFirst(t, body, 16);
    assert d.normalizedTitle == [title] && d.normalizedBody == [body];
    FieldOfOne(title, t);
    FieldOfOne(body, t);
    assert !TokenInScope(d, t, AnyField);
    assert [t][0] == t;
  }

  lemma FieldOfOne(fragment: string, t: string)
    requires !Text.IsSubstring(t, fragment)
    ensures !QueryEngine.FieldContains([fragment], t)
  {
    assert forall j :: 0 <= j < |[fragment]| ==> [fragment][j] == fragment;
  }

  /** A token whose first character does not occur early enough in `s`
      cannot occur in `s` at all. */
  lemma NotSubstringByFirst(t: string, s: string, k: nat)
    requires t != [] && |s| - |t| < k <= |s|
    requires t[0] !in s[..k]
    ensures !Text.IsSubstring(t, s)
  {
  }

  /** In a one-document store, a document the query does not select leaves
      the result empty. */
  lemma NotSelectedAlone(u: N.UnicodeTables, d: Doc, raw: string, tokens: seq<string>, scope: Scope, live: LiveFilter)
    requires !Text.AllSpace(raw) && QueryTokens(u, raw) == tokens
    requires !Selected(d, tokens, scope, live)
    ensures Search(u, [d], raw, scope, live) == Seqs.Some([])
  {
    SearchSelects(u, [d], raw, scope, live);
    var r := Search(u, [d], raw, scope, live).value;
    assert forall x :: x in r ==> x == d;
  }

  lemma GoInTitle(d: Doc, q: string)
    requires LikeGoVideo(d) && q == "go"
    ensures Selected(d, [q], AnyField, AllDocs)
  {
    assert Text.OccursAt(q, d.normalizedTitle[0], 9);
    assert TokenInScope(d, q, AnyField);
  }

  lemma GoInBody(d: Doc, q: string)
    requires LikeGoVideo(d) && q == "go"
    ensures Selected(d, [q], Body, AllDocs)
  {
    assert Text.OccursAt(q, d.normalizedBody[0], 6);
    assert TokenInScope(d, q, Body);
  }

  lemma IntroBasicsInFields(d: Doc)
    requires LikeGoVideo(d)
    ensures Selected(d, ["intro", "basics"], AnyField, AllDocs)
  {
    assert Text.OccursAt("intro", d.normalizedTitle[0], 0);
    assert Text.OccursAt("basics", d.normalizedBody[0], 13);
    assert TokenInScope(d, "intro", AnyField) && TokenInScope(d, "basics", AnyField);
  }

  /** In a one-document store, a selected document is the whole result. */
  lemma FoundAlone(u: N.UnicodeTables, d: Doc, raw: string, tokens: seq<string>, scope: Scope, live: LiveFilter)
    requires !Text.AllSpace(raw) && QueryTokens(u, raw) == tokens
    requires Selected(d, tokens, scope, live)
    ensures Search(u, [d], raw, scope, live) == Seqs.Some([d])
  {
    SelectedIsFound(u, [d], raw, scope, live, d);
    var r := Search(u, [d], raw, scope, live);
    SingleStore(d, r.value);
  }

  /** In a one-document store, a document the liveness filter refuses
      leaves the result empty. */
  lemma NotAdmittedAlone(u: N.UnicodeTables, d: Doc, raw: string, scope: Scope, live: LiveFilter)
    requires !Text.AllSpace(raw)
    requires !LivenessAdmits(d, live)
    ensures Search(u, [d], raw, scope, live) == Seqs.Some([])
  {
    SearchSelects(u, [d], raw, scope, live);
    var r := Search(u, [d], raw, scope, live).value;
    assert forall x :: x in r ==> x == d;
  }

  lemma GoTokens(q: string)
    requires q == "go"
    ensures !Text.AllSpace(q)
    ensures QueryTokens(Toy(), q) == [q]
  {
    assert q[0] == 'g';
    NormalizeLowerText(q);
    QueryTokensOfWord(Toy(), q);
  }

  lemma IntroBasicsTokens(q: string)
    requires q == "intro basics"
    ensures !Text.AllSpace(q)
    ensures QueryTokens(Toy(), q) == ["intro", "basics"]
  {
    assert q == "intro" + " " + "basics";
    TwoWordTokens("intro", "basics");
  }

  /** Two lower-case words separated by one space give those two tokens. */
  lemma TwoWordTokens(a: string, b: string)
    requires a != [] && forall i :: 0 <= i < |a| ==> 'a' <= a[i] <= 'z'
    requires b != [] && forall i :: 0 <= i < |b| ==> 'a' <= b[i] <= 'z'
    ensures !Text.AllSpace(a + " " + b)
    ensures QueryTokens(Toy(), a + " " + b) == [a, b]
  {
    TwoWordsTrimmed(a, b);
    TwoWordsTokenize(a, b);
    TrimmedQueryTokens(Toy(), a + " " + b);
  }

  lemma TrimmedQueryTokens(u: N.UnicodeTables, q: string)
    requires Text.Trim(q) == q
    ensures QueryTokens(u, q) == Tokenize(u, q)
  {
  }

  lemma TwoWordsTokenize(a: string, b: string)
    requires a != [] && forall i :: 0 <= i < |a| ==> 'a' <= a[i] <= 'z'
    requires b != [] && forall i :: 0 <= i < |b| ==> 'a' <= b[i] <= 'z'
    ensures Tokenize(Toy(), a + " " + b) == [a, b]
  {
    assert !Text.IsSpace(a[|a| - 1]) && Text.NoSpace(b) && Text.AllSpace(" ");
    TokenizeAppendWord(Toy(), a, " ", b);
    WordTokens(a);
    WordTokens(b);
  }

  lemma TwoWordsTrimmed(a: string, b: string)
    requires a != [] && forall i :: 0 <= i < |a| ==> 'a' <= a[i] <= 'z'
    requires b != [] && forall i :: 0 <= i < |b| ==> 'a' <= b[i] <= 'z'
    ensures !Text.AllSpace(a + " " + b)
    ensures Text.Trim(a + " " + b) == a + " " + b
  {
    var q := a + " " + b;
    assert q[0] == a[0] && q[|q| - 1] == b[|b| - 1];
    assert 'a' <= q[0] <= 'z' && 'a' <= q[|q| - 1] <= 'z';
    assert [] + q + [] == q;
    Text.TrimOfPadded([], q, []);
  }

  lemma WordTokens(w: string)
    requires w != [] && forall i :: 0 <= i < |w| ==> 'a' <= w[i] <= 'z'
    ensures Tokenize(Toy(), w) == [w]
  {
    assert Text.NoSpace(w);
    assert [] + w + [] == w;
    Text.TrimOfPadded([], w, []);
    NormalizeLowerText(w);
    QueryTokensOfWord(Toy(), w);
    assert QueryTokens(Toy(), w) == Tokenize(Toy(), Text.Trim(w));
  }

  lemma SingleStore(d: Doc, r: seq<Doc>)
    requires |r| <= 1 && d in r
    ensures r == [d]
  {
  }
}
