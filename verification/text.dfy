/** The JavaScript string primitives the search uses: the white-space class
    shared by `String.prototype.trim` and the regular-expression escape `\s`,
    `trim`, `split(/\s+/)` and `includes`. Strings are sequences of code
    points. */
module Text {

  /** ECMAScript WhiteSpace and LineTerminator code points: TAB, VT, FF,
      ZWNBSP, the Unicode space separators (category Zs), LF, CR, LINE
      SEPARATOR and PARAGRAPH SEPARATOR. `trim` and `\s` use this same set. */
  predicate IsSpace(c: char)
  {
    || c == '\t' || c == '\n' || c == '\U{000B}' || c == '\U{000C}' || c == '\r'
    || c == ' ' || c == '\U{00A0}' || c == '\U{1680}'
    || ('\U{2000}' <= c <= '\U{200A}')
    || c == '\U{2028}' || c == '\U{2029}' || c == '\U{202F}' || c == '\U{205F}'
    || c == '\U{3000}' || c == '\U{FEFF}'
  }

  predicate AllSpace(s: string)
  {
    forall i :: 0 <= i < |s| ==> IsSpace(s[i])
  }

  predicate NoSpace(s: string)
  {
    forall i :: 0 <= i < |s| ==> !IsSpace(s[i])
  }

  /** Length of the white-space run that starts `s`. */
  function LeadingSpaces(s: string): (n: nat)
    ensures n <= |s|
    ensures AllSpace(s[..n])
    ensures n < |s| ==> !IsSpace(s[n])
  {
    if s == [] || !IsSpace(s[0]) then 0 else 1 + LeadingSpaces(s[1..])
  }

  /** Length of the white-space run that ends `s`. */
  function TrailingSpaces(s: string): (n: nat)
    ensures n <= |s|
    ensures AllSpace(s[|s| - n..])
    ensures n < |s| ==> !IsSpace(s[|s| - n - 1])
  {
    if s == [] || !IsSpace(s[|s| - 1]) then 0 else 1 + TrailingSpaces(s[..|s| - 1])
  }

  /** `String.prototype.trim`: `s` is the result surrounded by white space
      only, and the result neither starts nor ends with white space. */
  function Trim(s: string): (r: string)
    ensures |r| <= |s|
    ensures r == [] <==> AllSpace(s)
    ensures r != [] ==> !IsSpace(r[0]) && !IsSpace(r[|r| - 1])
    ensures TrimmedAt(s, r, LeadingSpaces(s))
  {
    var i := LeadingSpaces(s);
    var n := TrailingSpaces(s[i..]);
    TrailingOfSuffix(s, i);
    TrimCore(s, i, n);
    s[i..|s| - n]
  }

  /** `r` occurs in `s` at offset `i`, and only white space follows it. */
  ghost predicate TrimmedAt(s: string, r: string, i: nat)
  {
    i + |r| <= |s| && s[i..i + |r|] == r && AllSpace(s[i + |r|..])
  }

  /** `s` is made of a white-space run of length `i`, a middle, and a
      white-space run of length `n`, and a non-empty middle starts and ends
      with a non-space. */
  ghost predicate SpaceFrame(s: string, i: nat, n: nat)
  {
    && i + n <= |s|
    && AllSpace(s[..i])
    && AllSpace(s[|s| - n..])
    && (i + n < |s| ==> !IsSpace(s[i]) && !IsSpace(s[|s| - n - 1]))
  }

  /** The leading run and the trailing run of what follows it frame `s`. */
  lemma TrailingOfSuffix(s: string, i: nat)
    requires i == LeadingSpaces(s)
    ensures SpaceFrame(s, i, TrailingSpaces(s[i..]))
  {
    var t := s[i..];
    var n := TrailingSpaces(t);
    DropOfDrop(s, i, |t| - n);
    if n < |t| {
      assert t[|t| - n - 1] == s[|s| - n - 1];
    }
  }

  /** What is left between the leading and the trailing white-space run. */
  lemma TrimCore(s: string, i: nat, n: nat)
    requires SpaceFrame(s, i, n)
    ensures var r := s[i..|s| - n];
      && (r == [] <==> AllSpace(s))
      && (r != [] ==> !IsSpace(r[0]) && !IsSpace(r[|r| - 1]))
      && TrimmedAt(s, r, i)
  {
    var r := s[i..|s| - n];
    assert |r| == |s| - n - i;
    if r == [] {
      assert s[i..] == s[|s| - n..];
      AllSpaceAround(s, i);
    } else {
      assert r[0] == s[i];
      assert r[|r| - 1] == s[|s| - n - 1];
    }
  }

  lemma DropOfDrop(s: string, i: nat, k: nat)
    requires i + k <= |s|
    ensures s[i..][k..] == s[i + k..]
  {
  }

  lemma AllSpaceAround(s: string, i: nat)
    requires i <= |s| && AllSpace(s[..i]) && AllSpace(s[i..])
    ensures AllSpace(s)
  {
    forall k | 0 <= k < |s|
      ensures IsSpace(s[k])
    {
      if k < i {
        assert s[k] == s[..i][k];
      } else {
        assert s[k] == s[i..][k - i];
      }
    }
  }

  /** `s.split(/\s+/)`: the pieces between maximal white-space runs. A run at
      either end yields an empty piece there, and the empty string yields one
      empty piece. */
  function Split(s: string): (pieces: seq<string>)
    ensures |pieces| >= 1
    ensures forall k :: 0 <= k < |pieces| ==> NoSpace(pieces[k])
    decreases |s|
  {
    if s == [] then [[]]
    else if IsSpace(s[0]) then [[]] + Split(s[LeadingSpaces(s)..])
    else
      var rest := Split(s[1..]);
      [[s[0]] + rest[0]] + rest[1..]
  }

  /** The maximal white-space runs of `s` that `Split` cuts at, in order. */
  function Gaps(s: string): seq<string>
    decreases |s|
  {
    if s == [] then []
    else if IsSpace(s[0]) then [s[..LeadingSpaces(s)]] + Gaps(s[LeadingSpaces(s)..])
    else Gaps(s[1..])
  }

  /** Puts the gaps back between the pieces. */
  function Interleave(pieces: seq<string>, gaps: seq<string>): string
    requires |pieces| == |gaps| + 1
  {
    if gaps == [] then pieces[0]
    else pieces[0] + gaps[0] + Interleave(pieces[1..], gaps[1..])
  }

  /** `Split` loses nothing: every gap is a non-empty white-space run, there
      is one fewer gap than pieces, and interleaving them rebuilds `s`. */
  lemma {:induction false} SplitRoundTrip(s: string)
    ensures |Gaps(s)| + 1 == |Split(s)|
    ensures forall k :: 0 <= k < |Gaps(s)| ==> Gaps(s)[k] != [] && AllSpace(Gaps(s)[k])
    ensures Interleave(Split(s), Gaps(s)) == s
    decreases |s|
  {
    if s == [] {
    } else if IsSpace(s[0]) {
      var n := LeadingSpaces(s);
      var t := s[n..];
      SplitRoundTrip(t);
      assert Split(s) == [[]] + Split(t);
      assert Gaps(s) == [s[..n]] + Gaps(t);
      assert Interleave(Split(s), Gaps(s)) == [] + s[..n] + Interleave(Split(t), Gaps(t));
      assert s == s[..n] + t;
    } else {
      var t := s[1..];
      SplitRoundTrip(t);
      var rest := Split(t);
      assert Split(s) == [[s[0]] + rest[0]] + rest[1..];
      assert Gaps(s) == Gaps(t);
      InterleavePrepend(s[0], rest, Gaps(t));
      assert s == [s[0]] + t;
    }
  }

  lemma {:induction false} InterleavePrepend(c: char, pieces: seq<string>, gaps: seq<string>)
    requires |pieces| == |gaps| + 1
    ensures Interleave([[c] + pieces[0]] + pieces[1..], gaps) == [c] + Interleave(pieces, gaps)
  {
    var ps := [[c] + pieces[0]] + pieces[1..];
    assert ps[0] == [c] + pieces[0];
    assert ps[1..] == pieces[1..];
  }

  /** On a trimmed, non-empty string every piece of `Split` is non-empty. */
  lemma {:induction false} SplitTrimmedPiecesNonEmpty(s: string)
    requires s != [] && !IsSpace(s[0]) && !IsSpace(s[|s| - 1])
    ensures forall k :: 0 <= k < |Split(s)| ==> Split(s)[k] != []
    decreases |s|
  {
    var t := s[1..];
    var rest := Split(t);
    assert Split(s) == [[s[0]] + rest[0]] + rest[1..];
    if t == [] {
    } else if !IsSpace(t[0]) {
      SplitTrimmedPiecesNonEmpty(t);
    } else {
      var n := LeadingSpaces(t);
      var u := t[n..];
      assert !IsSpace(t[|t| - 1]);
      assert t[..|t|] == t;
      assert n < |t|;
      assert u[|u| - 1] == s[|s| - 1];
      SplitTrimmedPiecesNonEmpty(u);
      assert rest == [[]] + Split(u);
    }
  }

  lemma {:induction false} LeadingSpacesPrefix(a: string, b: string)
    requires !AllSpace(a)
    ensures LeadingSpaces(a + b) == LeadingSpaces(a)
  {
    if IsSpace(a[0]) {
      assert (a + b)[1..] == a[1..] + b;
      assert !AllSpace(a[1..]) by {
        var k :| 0 <= k < |a| && !IsSpace(a[k]);
        assert a[1..][k - 1] == a[k];
      }
      LeadingSpacesPrefix(a[1..], b);
    }
  }

  lemma {:induction false} LeadingSpacesOfRun(sp: string, w: string)
    requires AllSpace(sp)
    requires w == [] || !IsSpace(w[0])
    ensures LeadingSpaces(sp + w) == |sp|
  {
    if sp == [] {
      assert sp + w == w;
    } else {
      assert (sp + w)[1..] == sp[1..] + w;
      LeadingSpacesOfRun(sp[1..], w);
    }
  }

  lemma {:induction false} TrailingSpacesOfRun(x: string, q: string)
    requires x != [] && !IsSpace(x[|x| - 1])
    requires AllSpace(q)
    ensures TrailingSpaces(x + q) == |q|
  {
    if q == [] {
      assert x + q == x;
    } else {
      var q' := q[..|q| - 1];
      assert (x + q)[..|x + q| - 1] == x + q';
      TrailingSpacesOfRun(x, q');
    }
  }

  /** Trimming strips exactly the white space around a core that neither
      starts nor ends with white space. */
  lemma TrimOfPadded(p: string, core: string, q: string)
    requires AllSpace(p) && AllSpace(q)
    requires core != [] && !IsSpace(core[0]) && !IsSpace(core[|core| - 1])
    ensures Trim(p + core + q) == core
  {
    var s := p + core + q;
    assert s == p + (core + q);
    LeadingSpacesOfRun(p, core + q);
    assert s[|p|..] == core + q;
    TrailingSpacesOfRun(core, q);
    assert (core + q)[..|core|] == core;
  }

  /** The white space that trimming removes from the end of `s`. */
  function TrailingRun(s: string): (t: string)
    ensures AllSpace(t)
  {
    s[LeadingSpaces(s) + |Trim(s)|..]
  }

  /** Trimming a non-blank string followed by a space and a word keeps the
      string's trailing white space, then the space, then the word. */
  lemma TrimAppendWord(s: string, w: string)
    requires !AllSpace(s)
    requires w != [] && NoSpace(w)
    ensures !AllSpace(s + " " + w)
    ensures AllSpace(TrailingRun(s) + " ")
    ensures Trim(s + " " + w) == Trim(s) + (TrailingRun(s) + " ") + w
  {
    var i := LeadingSpaces(s);
    var core := Trim(s);
    var tail := TrailingRun(s);
    TrimSplits(s);
    TrimPaddedAppend(s[..i], core, tail, w);
    var t := s + " " + w;
    assert t == s[..i] + core + tail + " " + w;
    assert Trim(t) == core + (tail + " ") + w;
    assert Trim(t) != [];
  }

  /** A non-blank string is its leading white space, its trimmed core and
      its trailing white space, in that order. */
  lemma TrimSplits(s: string)
    requires !AllSpace(s)
    ensures var i := LeadingSpaces(s);
      && AllSpace(s[..i])
      && s == s[..i] + Trim(s) + TrailingRun(s)
  {
    var i := LeadingSpaces(s);
    var j := i + |Trim(s)|;
    assert s[i..j] == Trim(s);
    ThreeSlices(s, i, j);
  }

  lemma ThreeSlices(s: string, i: nat, j: nat)
    requires i <= j <= |s|
    ensures s == s[..i] + s[i..j] + s[j..]
  {
    assert s[..j] == s[..i] + s[i..j];
  }

  lemma TrimPaddedAppend(p: string, core: string, tail: string, w: string)
    requires AllSpace(p) && AllSpace(tail)
    requires core != [] && !IsSpace(core[0]) && !IsSpace(core[|core| - 1])
    requires w != [] && NoSpace(w)
    ensures AllSpace(tail + " ")
    ensures Trim(p + core + tail + " " + w) == core + (tail + " ") + w
  {
    var sp := tail + " ";
    assert AllSpace(sp) by {
      assert forall k :: 0 <= k < |tail| ==> sp[k] == tail[k];
    }
    var mid := core + sp + w;
    Regroup(p, core, tail, " ", w);
    assert mid[|mid| - 1] == w[|w| - 1];
    assert mid[0] == core[0];
    TrimOfPadded(p, mid, []);
  }

  lemma Regroup(a: string, b: string, c: string, d: string, e: string)
    ensures a + b + c + d + e == a + (b + (c + d) + e) + []
  {
  }

  lemma SplitConsNonSpace(c: char, x: string)
    requires !IsSpace(c)
    ensures Split([c] + x) == [[c] + Split(x)[0]] + Split(x)[1..]
  {
    assert ([c] + x)[1..] == x;
  }

  lemma SplitRunThenWord(sp: string, w: string)
    requires sp != [] && AllSpace(sp)
    requires w != [] && !IsSpace(w[0])
    ensures Split(sp + w) == [[]] + Split(w)
  {
    LeadingSpacesOfRun(sp, w);
    assert (sp + w)[|sp|..] == w;
  }

  /** Splitting at a white-space run between a core that ends in a
      non-space and a word that starts with one splits each side apart. */
  lemma {:induction false} SplitAtRun(core: string, sp: string, w: string)
    requires core != [] && !IsSpace(core[|core| - 1])
    requires sp != [] && AllSpace(sp)
    requires w != [] && !IsSpace(w[0])
    ensures Split(core + sp + w) == Split(core) + Split(w)
    decreases |core|
  {
    if !IsSpace(core[0]) {
      var t := core[1..];
      assert core + sp + w == [core[0]] + (t + sp + w);
      assert core == [core[0]] + t;
      SplitConsNonSpace(core[0], t + sp + w);
      SplitConsNonSpace(core[0], t);
      if t == [] {
        assert t + sp + w == sp + w;
        SplitRunThenWord(sp, w);
      } else {
        SplitAtRun(t, sp, w);
        ConsFirstPiece(core[0], Split(t), Split(w));
      }
    } else {
      SplitAtRunAfterSpace(core, sp, w);
    }
  }

  lemma ConsFirstPiece(c: char, a: seq<string>, b: seq<string>)
    requires a != []
    ensures [[c] + (a + b)[0]] + (a + b)[1..] == ([[c] + a[0]] + a[1..]) + b
  {
    assert (a + b)[0] == a[0];
    assert (a + b)[1..] == a[1..] + b;
  }

  lemma {:induction false} SplitAtRunAfterSpace(core: string, sp: string, w: string)
    requires core != [] && IsSpace(core[0]) && !IsSpace(core[|core| - 1])
    requires sp != [] && AllSpace(sp)
    requires w != [] && !IsSpace(w[0])
    ensures Split(core + sp + w) == Split(core) + Split(w)
    decreases |core|, 0
  {
    var s := core + sp + w;
    var n := LeadingSpaces(core);
    LeadingSpacesBelow(core);
    LeadingSpacesPrefix(core, sp + w);
    assert s == core + (sp + w);
    var t := core[n..];
    assert s[n..] == t + sp + w by {
      assert core == core[..n] + t;
    }
    assert t[|t| - 1] == core[|core| - 1];
    SplitAtRun(t, sp, w);
  }

  /** A string that is not all white space has a non-space after its
      leading run. */
  lemma LeadingSpacesBelow(s: string)
    requires !AllSpace(s)
    ensures LeadingSpaces(s) < |s|
  {
    assert s[..|s|] == s;
  }

  /** A string without white space splits into itself alone. */
  lemma {:induction false} SplitWord(w: string)
    requires NoSpace(w)
    ensures Split(w) == [w]
  {
    if w != [] {
      SplitWord(w[1..]);
      assert [w[0]] + w[1..] == w;
    }
  }

  /** `t` occurs in `s` starting at offset `i`. */
  ghost predicate OccursAt(t: string, s: string, i: int)
  {
    0 <= i && i + |t| <= |s| && s[i..i + |t|] == t
  }

  /** Reference definition: `t` occurs in `s` at some offset. */
  ghost predicate IsSubstring(t: string, s: string)
  {
    exists i :: OccursAt(t, s, i)
  }

  /** `String.prototype.includes`, trying each start in turn: true exactly
      when `t` occurs in `s` at some offset. */
  function Includes(s: string, t: string): (r: bool)
    ensures r <==> IsSubstring(t, s)
    decreases |s|
  {
    if |s| < |t| then false
    else if t <= s then
      assert OccursAt(t, s, 0);
      true
    else
      SubstringOfTail(s, t);
      Includes(s[1..], t)
  }

  /** When `t` is not a prefix of `s`, it occurs in `s` exactly when it
      occurs in the tail of `s`. */
  lemma SubstringOfTail(s: string, t: string)
    requires |t| <= |s| && !(t <= s)
    ensures IsSubstring(t, s) <==> IsSubstring(t, s[1..])
  {
    if IsSubstring(t, s) {
      var i :| OccursAt(t, s, i);
      assert i != 0;
      OccursInTail(t, s, i - 1);
    }
    if IsSubstring(t, s[1..]) {
      var i :| OccursAt(t, s[1..], i);
      OccursInTail(t, s, i);
    }
  }

  /** An occurrence in the tail is an occurrence one place further on. */
  lemma OccursInTail(t: string, s: string, i: int)
    requires s != [] && 0 <= i
    ensures OccursAt(t, s[1..], i) <==> OccursAt(t, s, i + 1)
  {
    if 0 <= i && i + |t| <= |s| - 1 {
      assert s[1..][i..i + |t|] == s[i + 1..i + 1 + |t|];
    }
  }
}
