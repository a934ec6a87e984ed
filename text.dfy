/**
 * The pieces of JavaScript string behaviour that `cleanFilename` and the
 * rename step rely on: the `\s` / `trim` whitespace class, ASCII
 * lower-casing, `indexOf`, and `split` on a single character.
 */
module Text {
  import opened Wrappers

  /** ECMAScript WhiteSpace and LineTerminator code points: the set matched by
      the regular-expression class `\s` and removed by `String.prototype.trim`. */
  predicate IsSpace(c: char) {
    c == ' ' || ('\t' <= c <= '\r') || c == '\U{00A0}' || c == '\U{1680}'
    || ('\U{2000}' <= c <= '\U{200A}') || c == '\U{2028}' || c == '\U{2029}'
    || c == '\U{202F}' || c == '\U{205F}' || c == '\U{3000}' || c == '\U{FEFF}'
  }

  /** Among ASCII characters, whitespace is the space and tab through carriage
      return; every whitespace character lies in the Basic Multilingual Plane;
      the zero-width characters U+200B-U+200D are not whitespace. */
  lemma SpaceClass(c: char)
    ensures c < '\U{0080}' ==> (IsSpace(c) <==> c == ' ' || '\t' <= c <= '\r')
    ensures IsSpace(c) ==> c <= '\U{FEFF}'
    ensures '\U{200B}' <= c <= '\U{200D}' ==> !IsSpace(c)
  {
  }

  /** `s.trimStart()`: the longest suffix of `s` that does not start with whitespace. */
  function TrimStart(s: string): (r: string)
    ensures |r| <= |s| && r == s[|s| - |r|..]
    ensures forall i :: 0 <= i < |s| - |r| ==> IsSpace(s[i])
    ensures r == [] || !IsSpace(r[0])
  {
    if s != [] && IsSpace(s[0]) then TrimStart(s[1..]) else s
  }

  /** `s.trimEnd()`: the longest prefix of `s` that does not end with whitespace. */
  function TrimEnd(s: string): (r: string)
    ensures |r| <= |s| && r == s[..|r|]
    ensures forall i :: |r| <= i < |s| ==> IsSpace(s[i])
    ensures r == [] || !IsSpace(r[|r| - 1])
  {
    if s != [] && IsSpace(s[|s| - 1]) then TrimEnd(s[..|s| - 1]) else s
  }

  /** No whitespace at either end. */
  predicate Trimmed(s: string) {
    s == [] || (!IsSpace(s[0]) && !IsSpace(s[|s| - 1]))
  }

  /** `s.trim()`: `s` without its leading and trailing whitespace. */
  function Trim(s: string): (r: string)
    ensures Trimmed(r)
    ensures forall c :: c in r ==> c in s
  {
    var t := TrimStart(s);
    var r := TrimEnd(t);
    assert forall c :: c in r ==> c in t;
    r
  }

  /** `r` is the piece of `s` that starts at `k`, and only whitespace lies
      before and after it. */
  predicate MiddleAt(s: string, r: string, k: int) {
    0 <= k <= |s| - |r| && r == s[k..k + |r|] && AllSpace(s[..k]) && AllSpace(s[k + |r|..])
  }

  /** What `trim()` keeps is one contiguous piece of `s`, and everything it
      removes before and after that piece is whitespace. */
  lemma TrimIsMiddle(s: string)
    ensures exists k :: MiddleAt(s, Trim(s), k)
  {
    var t := TrimStart(s);
    assert Trim(s) == TrimEnd(t);
    TrimmedMiddle(s, t, Trim(s));
  }

  /** A prefix `r` of a suffix `t` of `s`, with only whitespace cut off on
      either side, is a middle slice of `s` between two whitespace runs. */
  lemma TrimmedMiddle(s: string, t: string, r: string)
    requires |t| <= |s| && t == s[|s| - |t|..]
    requires forall i :: 0 <= i < |s| - |t| ==> IsSpace(s[i])
    requires |r| <= |t| && r == t[..|r|]
    requires forall i :: |r| <= i < |t| ==> IsSpace(t[i])
    ensures MiddleAt(s, r, |s| - |t|)
  {
    var k := |s| - |t|;
    var tail := s[k + |r|..];
    forall i | 0 <= i < |tail|
      ensures IsSpace(tail[i])
    {
      assert tail[i] == t[|r| + i];
    }
    assert r == s[k..k + |r|];
  }

  /** Whitespace is removed at the ends only, so the non-whitespace text is kept. */
  lemma TrimKeepsText(s: string)
    ensures NonSpace(Trim(s)) == NonSpace(s)
  {
    TrimStartKeepsText(s);
    TrimEndKeepsText(TrimStart(s));
  }

  lemma TrimOfTrimmed(s: string)
    requires Trimmed(s)
    ensures Trim(s) == s
  {
  }

  /** The characters of `s` that are not whitespace, in order. */
  function NonSpace(s: string): string {
    if s == [] then [] else (if IsSpace(s[0]) then [] else [s[0]]) + NonSpace(s[1..])
  }

  lemma {:induction false} NonSpaceAppend(a: string, b: string)
    ensures NonSpace(a + b) == NonSpace(a) + NonSpace(b)
  {
    if a == [] {
      assert a + b == b;
    } else {
      assert (a + b)[1..] == a[1..] + b;
      NonSpaceAppend(a[1..], b);
    }
  }

  lemma {:induction false} NonSpaceOfSpaces(s: string)
    requires forall i :: 0 <= i < |s| ==> IsSpace(s[i])
    ensures NonSpace(s) == []
  {
    if s != [] {
      NonSpaceOfSpaces(s[1..]);
    }
  }

  lemma TrimStartKeepsText(s: string)
    ensures NonSpace(TrimStart(s)) == NonSpace(s)
  {
    var t := TrimStart(s);
    var lead := s[..|s| - |t|];
    assert s == lead + t;
    NonSpaceAppend(lead, t);
    NonSpaceOfSpaces(lead);
  }

  lemma TrimEndKeepsText(s: string)
    ensures NonSpace(TrimEnd(s)) == NonSpace(s)
  {
    var t := TrimEnd(s);
    var tail := s[|t|..];
    assert s == t + tail;
    NonSpaceAppend(t, tail);
    NonSpaceOfSpaces(tail);
  }

  /** Whitespace at both `i` and `i + 1`. */
  predicate DoubleSpaceAt(s: string, i: int)
    requires 0 <= i < |s| - 1
  {
    IsSpace(s[i]) && IsSpace(s[i + 1])
  }

  /** Every whitespace character is a plain space and no two are adjacent. */
  predicate SingleSpaced(s: string) {
    && (forall i :: 0 <= i < |s| && IsSpace(s[i]) ==> s[i] == ' ')
    && (forall i :: 0 <= i < |s| - 1 ==> !DoubleSpaceAt(s, i))
  }

  /** The shape `cleanFilename` promises: single-spaced with no whitespace at the ends. */
  predicate WellSpaced(s: string) {
    Trimmed(s) && SingleSpaced(s)
  }

  /** A contiguous piece of a single-spaced string is single-spaced. */
  lemma SingleSpacedSlice(s: string, i: nat, j: nat)
    requires SingleSpaced(s) && i <= j <= |s|
    ensures SingleSpaced(s[i..j])
  {
    var t := s[i..j];
    assert forall k :: 0 <= k < |t| ==> t[k] == s[i + k];
    forall k | 0 <= k < |t| - 1
      ensures !DoubleSpaceAt(t, k)
    {
      assert !DoubleSpaceAt(s, i + k);
    }
  }

  lemma TrimKeepsSingleSpaced(s: string)
    requires SingleSpaced(s)
    ensures SingleSpaced(Trim(s))
  {
    var t := TrimStart(s);
    SingleSpacedSlice(s, |s| - |t|, |s|);
    assert s[|s| - |t|..|s|] == t;
    SingleSpacedSlice(t, 0, |TrimEnd(t)|);
    assert t[0..|TrimEnd(t)|] == TrimEnd(t);
  }

  /** Putting `c` in front keeps a string single-spaced when `c` is not
      whitespace, or is a plain space followed by no whitespace. */
  lemma SingleSpacedCons(c: char, t: string)
    requires SingleSpaced(t)
    requires IsSpace(c) ==> c == ' ' && (t == [] || !IsSpace(t[0]))
    ensures SingleSpaced([c] + t)
  {
    var s := [c] + t;
    forall i | 0 <= i < |s| - 1
      ensures !DoubleSpaceAt(s, i)
    {
      if i > 0 {
        assert !DoubleSpaceAt(t, i - 1);
      }
    }
  }

  /** `s.replace(/\s+/g, ' ')`: every maximal run of whitespace becomes one space. */
  function CollapseRuns(s: string): (r: string)
    ensures SingleSpaced(r)
    ensures s != [] && !IsSpace(s[0]) ==> r != [] && r[0] == s[0]
    ensures s != [] && IsSpace(s[0]) ==> r != [] && r[0] == ' '
    ensures forall c :: c in r ==> c == ' ' || c in s
    decreases |s|
  {
    if s == [] then []
    else if IsSpace(s[0]) then
      var rest := CollapseRuns(TrimStart(s));
      SingleSpacedCons(' ', rest);
      [' '] + rest
    else
      var rest := CollapseRuns(s[1..]);
      SingleSpacedCons(s[0], rest);
      [s[0]] + rest
  }

  /** Collapsing whitespace runs keeps the non-whitespace text, in order. */
  lemma {:induction false} CollapseKeepsText(s: string)
    ensures NonSpace(CollapseRuns(s)) == NonSpace(s)
    decreases |s|
  {
    if s == [] {
    } else if IsSpace(s[0]) {
      var rest := TrimStart(s);
      var lead := s[..|s| - |rest|];
      calc {
        NonSpace(CollapseRuns(s));
      == { CollapseAtRun(s); }
        NonSpace([' '] + CollapseRuns(rest));
      == { NonSpaceAppend([' '], CollapseRuns(rest)); }
        NonSpace([' ']) + NonSpace(CollapseRuns(rest));
      == { CollapseKeepsText(rest); }
        NonSpace([' ']) + NonSpace(rest);
      == { NonSpaceOfSpaces(lead); }
        NonSpace(lead) + NonSpace(rest);
      == { assert s == lead + rest; NonSpaceAppend(lead, rest); }
        NonSpace(s);
      }
    } else {
      var rest := s[1..];
      calc {
        NonSpace(CollapseRuns(s));
        NonSpace([s[0]] + CollapseRuns(rest));
      == { NonSpaceAppend([s[0]], CollapseRuns(rest)); }
        NonSpace([s[0]]) + NonSpace(CollapseRuns(rest));
      == { CollapseKeepsText(rest); }
        NonSpace([s[0]]) + NonSpace(rest);
      == { assert s == [s[0]] + rest; NonSpaceAppend([s[0]], rest); }
        NonSpace(s);
      }
    }
  }

  /** A string that is already single-spaced is left as it is. */
  lemma {:induction false} CollapseOfSingleSpaced(s: string)
    requires SingleSpaced(s)
    ensures CollapseRuns(s) == s
    decreases |s|
  {
    if s != [] {
      SingleSpacedSlice(s, 1, |s|);
      assert s[1..|s|] == s[1..];
      CollapseOfSingleSpaced(s[1..]);
      if IsSpace(s[0]) && |s| > 1 {
        assert !DoubleSpaceAt(s, 0);
        assert TrimStart(s) == s[1..];
      }
    }
  }

  /** Nothing but whitespace. */
  predicate AllSpace(w: string) {
    forall i :: 0 <= i < |w| ==> IsSpace(w[i])
  }

  /** Trimming the front of a whitespace run followed by a string that does
      not start with whitespace leaves exactly that string. */
  lemma {:induction false} TrimStartPastSpaces(w: string, b: string)
    requires AllSpace(w)
    requires b == [] || !IsSpace(b[0])
    ensures TrimStart(w + b) == b
    decreases |w|
  {
    if w == [] {
      assert w + b == b;
    } else {
      var rest := w[1..];
      assert AllSpace(rest) by {
        assert forall i :: 0 <= i < |rest| ==> rest[i] == w[i + 1];
      }
      DropFirstOfConcat(w, b);
      assert IsSpace((w + b)[0]);
      TrimStartPastSpaces(rest, b);
    }
  }

  /** When `a` ends with a non-space, trimming the front of `a + b` stops inside `a`. */
  lemma {:induction false} TrimStartAppend(a: string, b: string)
    requires a != [] && !IsSpace(a[|a| - 1])
    ensures TrimStart(a + b) == TrimStart(a) + b
    decreases |a|
  {
    if IsSpace(a[0]) {
      DropFirstOfConcat(a, b);
      TrimStartAppend(a[1..], b);
    }
  }

  /** Trimming the front of a string that ends with a non-space keeps that
      last character, and shortens the string when it starts with whitespace. */
  lemma TrimStartKeepsLast(a: string)
    requires a != [] && !IsSpace(a[|a| - 1])
    ensures var t := TrimStart(a);
      t != [] && t[|t| - 1] == a[|a| - 1] && (IsSpace(a[0]) ==> |t| < |a|)
  {
  }

  /** A string ending with a non-space collapses to one ending with that non-space. */
  lemma {:induction false} CollapseKeepsLastNonSpace(a: string)
    requires a != [] && !IsSpace(a[|a| - 1])
    ensures var r := CollapseRuns(a); r != [] && r[|r| - 1] == a[|a| - 1]
    decreases |a|
  {
    if IsSpace(a[0]) {
      TrimStartKeepsLast(a);
      CollapseKeepsLastNonSpace(TrimStart(a));
    } else if |a| > 1 {
      CollapseKeepsLastNonSpace(a[1..]);
    }
  }

  /** Cutting a string right after a non-space does not cut a whitespace run,
      so collapsing distributes over the cut. */
  lemma {:induction false} CollapseAppend(a: string, b: string)
    requires a == [] || !IsSpace(a[|a| - 1])
    ensures CollapseRuns(a + b) == CollapseRuns(a) + CollapseRuns(b)
    decreases |a|, 1
  {
    if a == [] {
      assert a + b == b;
    } else if IsSpace(a[0]) {
      CollapseAppendAfterRun(a, b);
    } else {
      CollapseAppendAfterChar(a, b);
    }
  }

  /** `CollapseAppend` when `a` starts with whitespace. */
  lemma CollapseAppendAfterRun(a: string, b: string)
    requires a != [] && IsSpace(a[0]) && !IsSpace(a[|a| - 1])
    ensures CollapseRuns(a + b) == CollapseRuns(a) + CollapseRuns(b)
    decreases |a|, 0
  {
    var t := TrimStart(a);
    TrimStartKeepsLast(a);
    var x, y := CollapseRuns(t), CollapseRuns(b);
    calc {
      CollapseRuns(a + b);
      { assert (a + b)[0] == a[0]; CollapseAtRun(a + b); }
      [' '] + CollapseRuns(TrimStart(a + b));
      { TrimStartAppend(a, b); }
      [' '] + CollapseRuns(t + b);
      { CollapseAppend(t, b); }
      [' '] + (x + y);
      { ConcatAssoc([' '], x, y); }
      ([' '] + x) + y;
      { CollapseAtRun(a); }
      CollapseRuns(a) + y;
    }
  }

  lemma DropFirstOfConcat(x: string, y: string)
    requires x != []
    ensures (x + y)[1..] == x[1..] + y
  {
  }

  lemma ConcatAssoc(p: string, x: string, y: string)
    ensures p + (x + y) == (p + x) + y
  {
  }

  /** One step of `CollapseRuns` at a whitespace run. */
  lemma CollapseAtRun(s: string)
    requires s != [] && IsSpace(s[0])
    ensures CollapseRuns(s) == [' '] + CollapseRuns(TrimStart(s))
  {
  }

  /** `CollapseAppend` when `a` starts with a non-space. */
  lemma CollapseAppendAfterChar(a: string, b: string)
    requires a != [] && !IsSpace(a[0]) && !IsSpace(a[|a| - 1])
    ensures CollapseRuns(a + b) == CollapseRuns(a) + CollapseRuns(b)
    decreases |a|, 0
  {
    var rest := a[1..];
    var x, y := CollapseRuns(rest), CollapseRuns(b);
    calc {
      CollapseRuns(a + b);
      { assert (a + b)[0] == a[0]; DropFirstOfConcat(a, b); }
      [a[0]] + CollapseRuns(rest + b);
      { CollapseAppend(rest, b); }
      [a[0]] + (x + y);
      { ConcatAssoc([a[0]], x, y); }
      ([a[0]] + x) + y;
      CollapseRuns(a) + y;
    }
  }

  /** A whitespace run followed by a non-space, or by nothing, becomes one space. */
  lemma CollapseSpaceRun(w: string, b: string)
    requires w != [] && AllSpace(w)
    requires b == [] || !IsSpace(b[0])
    ensures CollapseRuns(w + b) == [' '] + CollapseRuns(b)
  {
    TrimStartPastSpaces(w, b);
  }

  /** `replace(/\s+/g, ' ')` on a maximal whitespace run between two pieces:
      the run becomes exactly one space and each piece collapses on its own. */
  lemma CollapseRunBetween(a: string, w: string, b: string)
    requires a == [] || !IsSpace(a[|a| - 1])
    requires w != [] && AllSpace(w)
    requires b == [] || !IsSpace(b[0])
    ensures CollapseRuns(a + w + b) == CollapseRuns(a) + [' '] + CollapseRuns(b)
  {
    var x, y := CollapseRuns(a), CollapseRuns(b);
    calc {
      CollapseRuns(a + w + b);
      { ConcatAssoc(a, w, b); }
      CollapseRuns(a + (w + b));
      { CollapseAppend(a, w + b); }
      x + CollapseRuns(w + b);
      { CollapseSpaceRun(w, b); }
      x + ([' '] + y);
      { ConcatAssoc(x, [' '], y); }
      x + [' '] + y;
    }
  }

  /** ASCII lower-casing of one character. */
  function LowerChar(c: char): char {
    if 'A' <= c <= 'Z' then (c as int + 32) as char else c
  }

  /** `s.toLowerCase()`, restricted to ASCII letters: it keeps the length, so
      an index found in the lower-cased text is an index into `s`. */
  function Lower(s: string): (r: string)
    ensures |r| == |s|
    ensures forall i :: 0 <= i < |s| ==> r[i] == LowerChar(s[i])
  {
    if s == [] then [] else [LowerChar(s[0])] + Lower(s[1..])
  }

  /** `pat` occurs in `s` starting at index `i`. */
  predicate OccursAt(s: string, pat: string, i: int) {
    0 <= i && i + |pat| <= |s| && s[i..i + |pat|] == pat
  }

  /** `s.indexOf(pat, from)`, with `None` for JavaScript's `-1`. */
  function IndexOfFrom(s: string, pat: string, from: nat): (r: Option<nat>)
    ensures r.Some? ==> from <= r.value && OccursAt(s, pat, r.value)
    ensures r.Some? ==> forall j :: from <= j < r.value ==> !OccursAt(s, pat, j)
    ensures r.None? ==> forall j :: from <= j ==> !OccursAt(s, pat, j)
    decreases |s| - from
  {
    if from + |pat| > |s| then None
    else if s[from..from + |pat|] == pat then Some(from)
    else IndexOfFrom(s, pat, from + 1)
  }

  /** `s.indexOf(pat)`: the first occurrence of `pat` in `s`. */
  function IndexOf(s: string, pat: string): (r: Option<nat>)
    ensures r.Some? <==> exists j :: OccursAt(s, pat, j)
    ensures r.Some? ==> OccursAt(s, pat, r.value) && forall j :: 0 <= j < r.value ==> !OccursAt(s, pat, j)
  {
    IndexOfFrom(s, pat, 0)
  }

  /** The first occurrence determines `indexOf`. */
  lemma IndexOfFirst(s: string, pat: string, i: nat)
    requires OccursAt(s, pat, i)
    requires forall j :: 0 <= j < i ==> !OccursAt(s, pat, j)
    ensures IndexOf(s, pat) == Some(i)
  {
    var k := IndexOf(s, pat);
    assert k.Some?;
  }

  /** The pieces `parts` joined back with the separator `d` between them. */
  function Join(parts: seq<string>, d: char): string
    requires |parts| >= 1
  {
    if |parts| == 1 then parts[0] else Join(parts[..|parts| - 1], d) + [d] + parts[|parts| - 1]
  }

  /** `s.split(d)` for a one-character separator: at least one piece, none
      containing `d`, and joining them back gives `s`. */
  function Split(s: string, d: char): (parts: seq<string>)
    ensures |parts| >= 1
    ensures forall k :: 0 <= k < |parts| ==> d !in parts[k]
    ensures Join(parts, d) == s
    decreases |s|
  {
    if s == [] then [[]]
    else
      var init, c := s[..|s| - 1], s[|s| - 1];
      assert s == init + [c];
      var ps := Split(init, d);
      if c == d then
        assert (ps + [[]])[..|ps|] == ps;
        ps + [[]]
      else
        var last := ps[|ps| - 1] + [c];
        var qs := ps[..|ps| - 1] + [last];
        assert qs[..|qs| - 1] == ps[..|ps| - 1];
        qs
  }
}
