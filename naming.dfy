/**
 * The new file name (background.js:94-98): the cleaned title, a dot, and the
 * extension of the name the browser suggested.
 */
module Naming {
  import opened Wrappers
  import opened Text
  import opened Cleaner

  /** `filename.split('.').pop()`: the text after the last dot, or the whole
      name when it has no dot. */
  function Extension(filename: string): (ext: string)
    ensures '.' !in ext
    ensures |ext| <= |filename| && filename[|filename| - |ext|..] == ext
    ensures |ext| < |filename| ==> filename[|filename| - |ext| - 1] == '.'
  {
    var parts := Split(filename, '.');
    JoinEndsWithLast(parts, '.');
    parts[|parts| - 1]
  }

  lemma JoinEndsWithLast(parts: seq<string>, d: char)
    requires |parts| >= 1
    ensures var s := Join(parts, d); var last := parts[|parts| - 1];
      |last| <= |s| && s[|s| - |last|..] == last &&
      (|parts| > 1 ==> s[|s| - |last| - 1] == d)
  {
  }

  /** A name without a dot is its own extension. */
  lemma ExtensionOfDotless(filename: string)
    requires '.' !in filename
    ensures Extension(filename) == filename
  {
  }

  /** Whatever precedes the last dot, the extension is what follows it. */
  lemma ExtensionAfterDot(base: string, ext: string)
    requires '.' !in ext
    ensures Extension(base + "." + ext) == ext
  {
    var name := base + "." + ext;
    var e := Extension(name);
    // no dot in the last |e| characters, and the one before the last |ext| is a dot
    assert forall k :: |name| - |e| <= k < |name| ==> name[k] == e[k - (|name| - |e|)];
    assert forall k :: |name| - |ext| <= k < |name| ==> name[k] == ext[k - (|name| - |ext|)];
    assert name[|name| - |ext| - 1] == '.';
    if |e| < |name| {
      assert name[|name| - |e| - 1] == '.';
    }
    assert |e| == |ext|;
  }

  /** Lines 94-98: `${cleanFilename(rawTitle)}.${extension}`. Splitting the
      new name at its last dot gives back the cleaned title and the extension
      of the suggested name: the rename keeps the extension. */
  function NewFilename(rawTitle: string, suggested: string, nfc: string -> string): (name: string)
    ensures Extension(name) == Extension(suggested)
    ensures |name| > |Extension(suggested)|
    ensures name[..|name| - |Extension(suggested)| - 1] == CleanFilename(Some(rawTitle), nfc)
  {
    var base := CleanFilename(Some(rawTitle), nfc);
    var ext := Extension(suggested);
    ExtensionAfterDot(base, ext);
    base + "." + ext
  }

  /** The part of the new name before the extension holds no illegal character. */
  lemma NewFilenameBaseIsLegal(rawTitle: string, suggested: string, nfc: string -> string)
    ensures var name := NewFilename(rawTitle, suggested, nfc);
      forall k :: 0 <= k < |name| - |Extension(suggested)| - 1 ==> !IsIllegal(name[k])
  {
    var name := NewFilename(rawTitle, suggested, nfc);
    var base := CleanFilename(Some(rawTitle), nfc);
    forall k | 0 <= k < |name| - |Extension(suggested)| - 1
      ensures !IsIllegal(name[k])
    {
      assert name[k] == base[k];
      assert base[k] in base;
    }
  }
}
