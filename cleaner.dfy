/**
 * `cleanFilename` (background.js:53-78): turns a page title into a file
 * base name of the form "Author - Title", with characters that are illegal
 * in file names removed and whitespace tidied.
 */
module Cleaner {
  import opened Wrappers
  import opened Text

  /** What an empty or absent title becomes. */
  const Placeholder: string := "untitled_download"
  /** The delimiter between title and author, matched case-insensitively. */
  const Byline: string := " by "
  /** What is put between author and title. */
  const Separator: string := " - "

  /** The class `[<>:"/\\|?*\u0000-\u001F]`: the nine reserved characters
      and the C0 control characters (every code point below the space). */
  predicate IsIllegal(c: char)
    ensures IsIllegal(c) ==> c < '\U{0080}'
    ensures IsSpace(c) ==> (IsIllegal(c) <==> '\t' <= c <= '\r')
  {
    || c == '<' || c == '>' || c == ':' || c == '"' || c == '/'
    || c == '\\' || c == '|' || c == '?' || c == '*'
    || c < ' '
  }

  predicate NoIllegal(s: string) {
    forall c :: c in s ==> !IsIllegal(c)
  }

  /** `s.replace(illegalCharsRegex, '')`: every legal character is kept, as
      many times as it occurs, and no illegal one survives. */
  function StripIllegal(s: string): (r: string)
    ensures NoIllegal(r)
    ensures forall c :: c in r ==> c in s
  {
    if s == [] then [] else (if IsIllegal(s[0]) then [] else [s[0]]) + StripIllegal(s[1..])
  }

  /** Every legal character survives stripping as often as it occurs. */
  lemma {:induction false} StripIllegalKeepsLegal(s: string, c: char)
    requires !IsIllegal(c)
    ensures multiset(StripIllegal(s))[c] == multiset(s)[c]
  {
    if s != [] {
      assert s == [s[0]] + s[1..];
      StripIllegalKeepsLegal(s[1..], c);
    }
  }

  /** Stripping works character by character, so it keeps the order of what it keeps. */
  lemma {:induction false} StripIllegalAppend(a: string, b: string)
    ensures StripIllegal(a + b) == StripIllegal(a) + StripIllegal(b)
  {
    if a == [] {
      assert a + b == b;
    } else {
      assert (a + b)[1..] == a[1..] + b;
      StripIllegalAppend(a[1..], b);
    }
  }

  /** A string without illegal characters is left as it is. */
  lemma {:induction false} StripIllegalOfLegal(s: string)
    requires NoIllegal(s)
    ensures StripIllegal(s) == s
  {
    if s != [] {
      assert s[0] in s;
      assert forall c :: c in s[1..] ==> c in s;
      StripIllegalOfLegal(s[1..]);
    }
  }

  /** `filename.toLowerCase().indexOf(' by ')` finds the byline at `i`. */
  predicate BylineAt(s: string, i: int) {
    OccursAt(Lower(s), Byline, i)
  }

  ghost predicate HasByline(s: string) {
    exists i :: BylineAt(s, i)
  }

  /** The byline at `i` is the first one. */
  predicate FirstBylineAt(s: string, i: int) {
    BylineAt(s, i) && forall j :: 0 <= j < i ==> !BylineAt(s, j)
  }

  /** Lines 59-67: at the first case-insensitive " by ", the text before it is
      the title and the text after it the author, and the result is
      "{author} - {title}" with both parts trimmed; without " by " the text is
      kept. */
  function Reorder(s: string): (r: string)
    ensures !HasByline(s) ==> r == s
    ensures HasByline(s) ==>
      (exists i :: FirstBylineAt(s, i) && i + |Byline| <= |s| && r == Trim(s[i + |Byline|..]) + Separator + Trim(s[..i]))
  {
    match IndexOf(Lower(s), Byline)
    case None => s
    case Some(i) =>
      assert FirstBylineAt(s, i);
      Trim(s[i + |Byline|..]) + Separator + Trim(s[..i])
  }

  lemma ReorderAtFirstByline(s: string, i: nat)
    requires BylineAt(s, i)
    requires forall j :: 0 <= j < i ==> !BylineAt(s, j)
    ensures i + |Byline| <= |s|
    ensures Reorder(s) == Trim(s[i + |Byline|..]) + Separator + Trim(s[..i])
  {
    forall j | 0 <= j < i
      ensures !OccursAt(Lower(s), Byline, j)
    {
      assert !BylineAt(s, j);
    }
    IndexOfFirst(Lower(s), Byline, i);
  }

  /** A byline is a space, a `b` and a `y` in either case, and a space. */
  lemma BylineChars(s: string, i: int)
    ensures BylineAt(s, i) ==> 0 <= i && i + |Byline| <= |s|
    ensures BylineAt(s, i) ==> s[i] == ' ' && s[i + 3] == ' '
    ensures BylineAt(s, i) ==> (s[i + 1] == 'b' || s[i + 1] == 'B') && (s[i + 2] == 'y' || s[i + 2] == 'Y')
  {
    if BylineAt(s, i) {
      var low := Lower(s);
      assert low[i..i + |Byline|] == Byline;
      assert low[i] == Byline[0] && low[i + 1] == Byline[1];
      assert low[i + 2] == Byline[2] && low[i + 3] == Byline[3];
    }
  }

  /** Line 75, `replace(/\s+/g, ' ').trim()`: the non-whitespace text is kept in
      order, each run of whitespace between it becomes one space, and none is
      left at the ends. */
  function Tidy(s: string): (r: string)
    ensures WellSpaced(r)
    ensures NonSpace(r) == NonSpace(s)
    ensures forall c :: c in r ==> c == ' ' || c in s
  {
    var collapsed := CollapseRuns(s);
    TrimKeepsSingleSpaced(collapsed);
    TrimKeepsText(collapsed);
    CollapseKeepsText(s);
    Trim(collapsed)
  }

  lemma TidyKeepsLegal(s: string)
    requires NoIllegal(s)
    ensures NoIllegal(Tidy(s))
  {
    var r := Tidy(s);
    forall c | c in r
      ensures !IsIllegal(c)
    {
      assert c == ' ' || c in s;
    }
  }

  /** Lines 56-77 after the Unicode normalisation: trim, reorder at the byline,
      strip illegal characters, tidy whitespace. */
  function CleanNormalized(s: string): (r: string)
    ensures NoIllegal(r) && WellSpaced(r)
  {
    var stripped := StripIllegal(Reorder(Trim(s)));
    TidyKeepsLegal(stripped);
    Tidy(stripped)
  }

  /** `cleanFilename(rawTitle)`: `nfc` stands for `String.prototype.normalize('NFC')`.
      An absent or empty title gives the placeholder; every result is free of
      illegal characters and well spaced. */
  function CleanFilename(raw: Option<string>, nfc: string -> string): (r: string)
    ensures NoIllegal(r) && WellSpaced(r)
    ensures raw.None? || raw == Some("") ==> r == Placeholder
    ensures raw.Some? && raw.value != "" ==> r == CleanNormalized(nfc(raw.value))
  {
    if raw.None? || raw.value == "" then Placeholder
    else CleanNormalized(nfc(raw.value))
  }

  /** A trimmed string with nothing but whitespace in it is empty. */
  lemma TrimmedBlankIsEmpty(s: string)
    requires Trimmed(s) && NonSpace(s) == []
    ensures s == []
  {
  }

  /** Two single-spaced strings joined where at least one side has no space
      at the seam stay single-spaced. */
  lemma SingleSpacedConcat(a: string, b: string)
    requires SingleSpaced(a) && SingleSpaced(b)
    requires a == [] || b == [] || !IsSpace(a[|a| - 1]) || !IsSpace(b[0])
    ensures SingleSpaced(a + b)
  {
    var s := a + b;
    forall i | 0 <= i < |s| - 1
      ensures !DoubleSpaceAt(s, i)
    {
      if i + 1 < |a| {
        assert s[i] == a[i] && s[i + 1] == a[i + 1];
        assert !DoubleSpaceAt(a, i);
      } else if i >= |a| {
        assert s[i] == b[i - |a|] && s[i + 1] == b[i + 1 - |a|];
        assert !DoubleSpaceAt(b, i - |a|);
      }
    }
  }

  /** The pipeline stage by stage: when trimming changes nothing, the byline
      step gives `m` and stripping `m` gives an already tidy `t`, the result is `t`. */
  lemma CleanNormalizedOf(s: string, m: string, t: string)
    requires Trim(s) == s && Reorder(s) == m && StripIllegal(m) == t && Tidy(t) == t
    ensures CleanNormalized(s) == t
  {
  }

  lemma TidyOfWellSpaced(s: string)
    requires WellSpaced(s)
    ensures Tidy(s) == s
  {
    CollapseOfSingleSpaced(s);
    TrimOfTrimmed(s);
  }

  /** In `title + " by " + author` the first byline is the one at the seam,
      provided `title + " "` has none. */
  lemma FirstBylineAtSeam(title: string, author: string)
    requires title != [] && !IsSpace(title[|title| - 1])
    requires !HasByline(title + " ")
    ensures BylineAt(title + Byline + author, |title|)
    ensures forall j :: 0 <= j < |title| ==> !BylineAt(title + Byline + author, j)
  {
    var s := title + Byline + author;
    var n := |title|;
    assert Lower(s)[n..n + 4] == Byline by {
      assert s[n] == ' ' && s[n + 1] == 'b' && s[n + 2] == 'y' && s[n + 3] == ' ';
    }
    forall j | 0 <= j < n
      ensures !BylineAt(s, j)
    {
      NoBylineBeforeSeam(title, author, j);
    }
  }

  lemma NoBylineBeforeSeam(title: string, author: string, j: nat)
    requires j < |title|
    requires !HasByline(title + " ")
    ensures !BylineAt(title + Byline + author, j)
  {
    var s := title + Byline + author;
    var n := |title|;
    if j + 4 <= n + 1 {
      var t := title + " ";
      assert s == t + ("by " + author);
      BylineInPrefix(t, "by " + author, j);
    } else {
      assert s[n] == ' ';
      BylineChars(s, j);
    }
  }

  /** Whether a byline starts at `j` depends only on the four characters from `j`. */
  lemma BylineInPrefix(t: string, u: string, j: nat)
    requires j + |Byline| <= |t|
    ensures BylineAt(t + u, j) <==> BylineAt(t, j)
  {
    assert Lower(t + u)[j..j + 4] == Lower(t)[j..j + 4] by {
      assert forall k :: 0 <= k < |t| ==> (t + u)[k] == t[k];
    }
  }

  lemma ReorderAtSeam(title: string, author: string)
    requires title != [] && !IsSpace(title[|title| - 1])
    requires !HasByline(title + " ")
    ensures Reorder(title + Byline + author) == Trim(author) + Separator + Trim(title)
  {
    var s := title + Byline + author;
    var n := |title|;
    assert s[n + 4..] == author && s[..n] == title;
    FirstBylineAtSeam(title, author);
    ReorderAtFirstByline(s, n);
  }

  /** Two well-spaced pieces joined by the separator need no cleanup. */
  lemma TidyOfSeparated(a: string, b: string)
    requires a != [] && b != []
    requires WellSpaced(a) && WellSpaced(b)
    ensures Tidy(a + Separator + b) == a + Separator + b
  {
    var out := a + Separator + b;
    assert out == a + (Separator + b);
    SingleSpacedConcat(Separator, b);
    SingleSpacedConcat(a, Separator + b);
    TidyOfWellSpaced(out);
  }

  /** The reorder rule, end to end: a clean title and a clean author joined by
      " by " come out as "{author} - {title}". The title must not itself
      contain the byline, nor end with " by" (which would meet the delimiter's
      space first). */
  lemma CleanReordersByline(title: string, author: string)
    requires title != [] && author != []
    requires WellSpaced(title) && WellSpaced(author)
    requires NoIllegal(title) && NoIllegal(author)
    requires !HasByline(title + " ")
    ensures CleanNormalized(title + Byline + author) == author + Separator + title
  {
    var s := title + Byline + author;
    var out := author + Separator + title;
    calc {
      CleanNormalized(s);
      Tidy(StripIllegal(Reorder(Trim(s))));
    == { TrimOfTrimmed(s); }
      Tidy(StripIllegal(Reorder(s)));
    == { ReorderAtSeam(title, author); TrimOfTrimmed(title); TrimOfTrimmed(author); }
      Tidy(StripIllegal(out));
    == { StripIllegalOfLegal(out); }
      Tidy(out);
    == { TidyOfSeparated(author, title); }
      out;
    }
  }

  /** A clean title without a byline is already its own file name. */
  lemma CleanKeepsPlainTitle(t: string)
    requires WellSpaced(t) && NoIllegal(t)
    requires !HasByline(t)
    ensures CleanNormalized(t) == t
  {
    TrimOfTrimmed(t);
    StripIllegalOfLegal(t);
    TidyOfWellSpaced(t);
    CleanNormalizedOf(t, t, t);
  }

  /** Nothing but illegal characters and whitespace. */
  predicate Junk(s: string) {
    forall c :: c in s ==> IsIllegal(c) || IsSpace(c)
  }

  lemma JunkHasNoByline(s: string)
    requires Junk(s)
    ensures !HasByline(s)
  {
    forall i
      ensures !BylineAt(s, i)
    {
      BylineChars(s, i);
      if 0 <= i < |s| - 1 {
        assert s[i + 1] in s;
      }
    }
  }

  lemma StripJunkIsBlank(s: string)
    requires Junk(s)
    ensures forall k :: 0 <= k < |StripIllegal(s)| ==> IsSpace(StripIllegal(s)[k])
  {
    var r := StripIllegal(s);
    forall k | 0 <= k < |r|
      ensures IsSpace(r[k])
    {
      assert r[k] in r;
    }
  }

  lemma TidyOfBlank(s: string)
    requires forall k :: 0 <= k < |s| ==> IsSpace(s[k])
    ensures Tidy(s) == []
  {
    NonSpaceOfSpaces(s);
    TrimmedBlankIsEmpty(Tidy(s));
  }

  /** A title made only of illegal characters and whitespace cleans to the
      empty string (not to the placeholder). */
  lemma CleanOfJunkIsEmpty(s: string)
    requires Junk(s)
    ensures CleanNormalized(s) == []
  {
    var t := Trim(s);
    assert Junk(t);
    JunkHasNoByline(t);
    StripJunkIsBlank(t);
    TidyOfBlank(StripIllegal(t));
  }

  /** The placeholder is only for the empty title: a non-empty title that
      normalises to junk yields "". */
  lemma JunkTitleIsNotPlaceholder(raw: string, nfc: string -> string)
    requires raw != []
    requires Junk(nfc(raw))
    ensures CleanFilename(Some(raw), nfc) == []
  {
    CleanOfJunkIsEmpty(nfc(raw));
  }

  /** Tab, line feed and the other C0 whitespace are removed as illegal
      before whitespace is collapsed, so they join the words around them
      instead of becoming a space. */
  lemma ControlWhitespaceJoinsWords(a: string, b: string, c: char)
    requires a != [] && b != []
    requires WellSpaced(a) && WellSpaced(b) && NoIllegal(a) && NoIllegal(b)
    requires '\t' <= c <= '\r'
    requires !HasByline(a + [c] + b)
    ensures CleanNormalized(a + [c] + b) == a + b
  {
    var s := a + [c] + b;
    calc {
      CleanNormalized(s);
      Tidy(StripIllegal(Reorder(Trim(s))));
      { TrimAroundControl(a, b, c); }
      Tidy(StripIllegal(Reorder(s)));
      Tidy(StripIllegal(s));
      { StripDropsControl(a, b, c); }
      Tidy(a + b);
      { TidyOfJoined(a, b); }
      a + b;
    }
  }

  lemma TrimAroundControl(a: string, b: string, c: char)
    requires a != [] && b != [] && Trimmed(a) && Trimmed(b)
    ensures Trim(a + [c] + b) == a + [c] + b
  {
    var s := a + [c] + b;
    assert s[0] == a[0] && s[|s| - 1] == b[|b| - 1];
    TrimOfTrimmed(s);
  }

  lemma StripDropsControl(a: string, b: string, c: char)
    requires NoIllegal(a) && NoIllegal(b) && c < ' '
    ensures StripIllegal(a + [c] + b) == a + b
  {
    assert IsIllegal(c) && [c][1..] == [];
    assert StripIllegal([c]) == [];
    StripIllegalOfLegal(a);
    StripIllegalAppend(a, [c]);
    assert StripIllegal(a + [c]) == a;
    StripIllegalOfLegal(b);
    StripIllegalAppend(a + [c], b);
  }

  lemma TidyOfJoined(a: string, b: string)
    requires a != [] && b != [] && WellSpaced(a) && WellSpaced(b)
    ensures Tidy(a + b) == a + b
  {
    SingleSpacedConcat(a, b);
    TidyOfWellSpaced(a + b);
  }

  /** Line 75 between two words: a whitespace run of any kind between two
      trimmed pieces becomes exactly one space, and each piece is tidied on
      its own. */
  lemma TidyRunBetween(a: string, w: string, b: string)
    requires a != [] && b != [] && Trimmed(a) && Trimmed(b)
    requires w != [] && AllSpace(w)
    ensures Tidy(a + w + b) == Tidy(a) + [' '] + Tidy(b)
  {
    CollapseRunBetween(a, w, b);
    CollapseKeepsLastNonSpace(a);
    CollapseKeepsLastNonSpace(b);
    var ca := CollapseRuns(a);
    var cb := CollapseRuns(b);
    TrimOfTrimmed(ca);
    TrimOfTrimmed(cb);
    var m := ca + [' '] + cb;
    assert m[0] == ca[0] && m[|m| - 1] == cb[|cb| - 1];
    TrimOfTrimmed(m);
  }

  /** Two words with any whitespace run between them come out as the two
      words and one space. */
  lemma TidyJoinsWords(a: string, w: string, b: string)
    requires a != [] && b != [] && w != [] && AllSpace(w)
    requires forall i :: 0 <= i < |a| ==> !IsSpace(a[i])
    requires forall i :: 0 <= i < |b| ==> !IsSpace(b[i])
    ensures Tidy(a + w + b) == a + [' '] + b
  {
    WordIsWellSpaced(a);
    WordIsWellSpaced(b);
    calc {
      Tidy(a + w + b);
    == { TidyRunBetween(a, w, b); }
      Tidy(a) + [' '] + Tidy(b);
    == { TidyOfWellSpaced(a); TidyOfWellSpaced(b); }
      a + [' '] + b;
    }
  }

  /** A no-break space between two words becomes an ordinary space. */
  lemma NoBreakSpaceBecomesSpace()
    ensures Tidy("Moby\U{00A0}Dick") == "Moby Dick"
  {
    var moby, dick := ['M', 'o', 'b', 'y'], ['D', 'i', 'c', 'k'];
    assert "Moby\U{00A0}Dick" == moby + ['\U{00A0}'] + dick;
    assert "Moby Dick" == moby + [' '] + dick;
    TidyJoinsWords(moby, ['\U{00A0}'], dick);
  }

  /** A string without whitespace is well spaced. */
  lemma WordIsWellSpaced(s: string)
    requires forall i :: 0 <= i < |s| ==> !IsSpace(s[i])
    ensures WellSpaced(s)
  {
  }
}
