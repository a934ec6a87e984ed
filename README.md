# Gutenberg renamer, modelled in Dafny

The extension renames files downloaded from `www.gutenberg.org` after the
title of the page they came from, in the form `Author - Title.ext`. Its
background page does this in two steps. When a download is created on the
target site, it asks the active tab for the page title and stores the
answer under the download id. When the browser asks for a file name, it looks
that title up. If the title is there, it suggests a cleaned name and forgets
the title. If not, it tries again, up to ten more times, and then leaves the
name to the browser.

The model covers that background page:

- `Text` holds the JavaScript string operations the code relies on: `trim`,
  `toLowerCase`, `indexOf`, `split` and the `\s` replacement. Each is defined
  by recursion and characterised by its contract or by lemmas. The whitespace
  class shared by `\s` and `trim` is the ECMAScript WhiteSpace and
  LineTerminator set, written out code point by code point; a lemma states
  what it holds among ASCII characters and beyond.
- `Cleaner` models `cleanFilename`:
  - the placeholder for a missing title;
  - the case-insensitive split at the first `" by "` and the reorder to
    `author - title`;
  - removal of illegal characters;
  - whitespace collapsing.
- `Domain` models the hostname rule of `checkDomain`. It fails closed on a
  URL that does not parse.
- `Naming` models the new file name: the cleaned title, a dot, and the last
  dot-separated piece of the name the browser suggested.
- `Downloads` models the shared `lastTitles` table as the field of a class
  `Renamer`, with these methods:
  - the response callback that stores a title;
  - one run of `attemptRename`;
  - a whole download, from the title request to the single `suggest` call.

  The retries of `attemptRename` are also given as a specification function,
  `RunFrom`. Lemmas state which title a download gets, how many lookups it
  takes, and what it leaves in the table.

The title request is asynchronous. A `Reply` fixes when its answer arrives:
just before a given lookup, or after the last one. All interleavings of the
answer with the retries are therefore covered, and no timer is involved.

The comment at line 112 speaks of at most 10 retries, about one second. The
code makes up to 11 lookups: `retryCount` runs from 0 to 10, and a retry is
scheduled while `retryCount < 10`. The model follows the code.

## Model

| member | source | states |
|---|---|---|
| Text.SpaceClass | background.js:75 | the whitespace of `\s` and `trim()`: among ASCII characters exactly the space and tab through carriage return; nothing outside the Basic Multilingual Plane; not the zero-width characters U+200B-U+200D |
| Text.TrimStart | background.js:56 | the result is a suffix of the input, everything dropped is whitespace, and it does not start with whitespace |
| Text.TrimEnd | background.js:56 | the result is a prefix of the input, everything dropped is whitespace, and it does not end with whitespace |
| Text.Trim | background.js:56 | `trim()`: neither end of the result is whitespace, and every character comes from the input (TrimIsMiddle adds that it is the middle of the input between two whitespace runs) |
| Text.TrimIsMiddle | background.js:56 | what `trim()` keeps is one contiguous piece of the input, with only whitespace before it and after it |
| Text.TrimOfTrimmed | background.js:62-63 | trimming a string that is already trimmed changes nothing |
| Text.TrimKeepsText | background.js:56 | trimming removes only whitespace: the non-whitespace characters, in order, are unchanged |
| Text.CollapseRuns | background.js:75 | `replace(/\s+/g, ' ')`: no whitespace but single ASCII spaces, and no two adjacent ones; a leading non-space character is kept, and a leading whitespace run becomes one space (what happens to a run between words is stated by CollapseRunBetween) |
| Text.CollapseKeepsText | background.js:75 | collapsing keeps the non-whitespace characters and their order |
| Text.CollapseOfSingleSpaced | background.js:75 | collapsing a string that is already single-spaced changes nothing |
| Text.TrimKeepsSingleSpaced | background.js:75 | trimming a single-spaced string keeps it single-spaced |
| Text.CollapseAppend | background.js:75 | cutting a string right after a non-space cuts no whitespace run, so collapsing the whole is collapsing the two parts |
| Text.CollapseSpaceRun | background.js:75 | a whitespace run followed by a non-space or by nothing becomes exactly one space |
| Text.CollapseRunBetween | background.js:75 | a maximal whitespace run between two pieces becomes exactly one space, and each piece collapses on its own |
| Text.Lower | background.js:59 | `toLowerCase()` keeps the length and lowers each character in place, so an index into the lowered text is an index into the original |
| Text.IndexOf | background.js:59 | `indexOf`: a position is found iff the pattern occurs, and the one found is an occurrence with none before it |
| Text.IndexOfFirst | background.js:59 | the first occurrence of the pattern is exactly what `indexOf` returns |
| Text.Split | background.js:96 | `split('.')`: at least one piece, no piece contains the separator, and joining the pieces with it gives back the input |
| Cleaner.IsIllegal | background.js:71 | the class holds only ASCII characters, and of the whitespace characters it holds exactly tab, line feed, vertical tab, form feed and carriage return |
| Cleaner.StripIllegal | background.js:71-72 | the result has none of `< > : " / \ \| ? *` nor U+0000-U+001F, and all its characters come from the input |
| Cleaner.StripIllegalKeepsLegal | background.js:71-72 | every legal character keeps its number of occurrences, so only illegal characters are removed |
| Cleaner.StripIllegalAppend | background.js:71-72 | removal works character by character: it distributes over concatenation |
| Cleaner.StripIllegalOfLegal | background.js:71-72 | a string without illegal characters is unchanged |
| Cleaner.ReorderAtFirstByline | background.js:59-66 | when the first case-insensitive `" by "` is at `i`, the text becomes the trimmed part after it, `" - "`, and the trimmed part before it |
| Cleaner.Reorder | background.js:59-68 | without any case-insensitive `" by "` the text is kept as it is; otherwise there is a first one, and the text becomes the trimmed part after it, `" - "`, and the trimmed part before it |
| Cleaner.Tidy | background.js:75 | the collapse and trim give a trimmed, single-spaced string with the same non-whitespace characters in order, and nothing new but spaces |
| Cleaner.TidyKeepsLegal | background.js:71-75 | whitespace cleanup after the strip brings no illegal character back |
| Cleaner.TidyOfWellSpaced | background.js:75 | cleanup leaves a trimmed, single-spaced string unchanged |
| Cleaner.TidyRunBetween | background.js:75 | a whitespace run of any kind between two trimmed pieces becomes exactly one space, and each piece is tidied on its own |
| Cleaner.TidyJoinsWords | background.js:75 | two words with a whitespace run of any kind between them come out as the two words and one space |
| Cleaner.NoBreakSpaceBecomesSpace | background.js:75 | `"Moby\u00A0Dick"` is tidied to `"Moby Dick"` |
| Cleaner.CleanNormalized | background.js:56-77 | after normalisation, the result has no illegal character, no outer whitespace, and only single ASCII spaces |
| Cleaner.CleanFilename | background.js:53-78 | a missing or empty title gives `untitled_download`; any other title gives the cleaned normalised title, with no illegal character and tidy whitespace |
| Cleaner.ReorderAtSeam | background.js:59-63 | in `title + " by " + author`, the split falls at the seam when the title has no `" by "` of its own |
| Cleaner.CleanReordersByline | background.js:59-77 | a clean `title by author` becomes exactly `author - title` |
| Cleaner.CleanKeepsPlainTitle | background.js:68-77 | a clean title without `" by "` comes out unchanged |
| Cleaner.CleanOfJunkIsEmpty | background.js:71-77 | a text made only of illegal characters and whitespace cleans to the empty string |
| Cleaner.JunkTitleIsNotPlaceholder | background.js:54-77 | such a non-empty title gives `""` and not the placeholder, which applies only to an empty or missing title |
| Cleaner.ControlWhitespaceJoinsWords | background.js:71-75 | a tab, line feed, vertical tab, form feed or carriage return between two words is removed as a control character before whitespace is collapsed, so the words are joined without a space |
| Domain.TargetHostIff | background.js:10 | the hostname test holds iff the host is `www.gutenberg.org` or some labels, a dot and `www.gutenberg.org` |
| Domain.IsTargetHost | background.js:10 | an accepted host ends with `www.gutenberg.org`, and unless it is exactly that, a dot comes right before it |
| Domain.CheckDomain | background.js:6-15 | an unparsable URL gives `false`; otherwise the result is true iff the host is the target domain or a subdomain of it |
| Domain.LookalikeHostRejected | background.js:10 | a host that ends with the target's letters without a dot before them (`evilwww.gutenberg.org`) is rejected |
| Domain.HostExamples | background.js:10 | the target and its subdomains are accepted; `gutenberg.org` and unrelated hosts are not |
| Naming.Extension | background.js:96 | `split('.').pop()` has no dot, is a suffix of the name, and is preceded by a dot unless it is the whole name |
| Naming.ExtensionOfDotless | background.js:96 | a name without a dot is its own extension |
| Naming.ExtensionAfterDot | background.js:96 | the extension of `base + "." + ext` is `ext` whenever `ext` has no dot |
| Naming.NewFilename | background.js:94-98 | the new name splits back at its last dot into the cleaned title and the suggested name's extension, so the rename keeps the extension |
| Naming.NewFilenameBaseIsLegal | background.js:94-98 | the part of the new name before the extension has no illegal character |
| Downloads.RunFrom | background.js:90-119 | the retries make between 1 and 11 lookups, and a title they use is a truthy one |
| Downloads.Lookup | background.js:91-93 | a title found is the stored one and is truthy; in a table that holds only truthy titles, a title is found exactly when the id is present |
| Downloads.Stored | background.js:39-41 | a truthy title is then found under the id, a falsy one changes nothing, every other entry is unchanged, and a table of truthy titles stays one |
| Downloads.SuggestionOf | background.js:94-117 | the argument of `suggest`: nothing exactly when no title was used; otherwise a rename with `uniquify` whose name splits at its last dot into the cleaned title and the browser's extension |
| Downloads.RunUsesFirstTitle | background.js:90-119 | the download is renamed iff a lookup finds a truthy title, using the first one found, with every earlier lookup empty; renaming removes exactly that id's entry; otherwise all 11 lookups are made and the table is unchanged |
| Downloads.KeepDefaultIffNoTitle | background.js:111-117 | the browser's name is kept exactly when none of the 11 lookups finds a title |
| Downloads.TimelyReplyRenames | background.js:90-109 | a truthy title that arrives before the last lookup is used at the next lookup, and its entry is consumed |
| Downloads.NoTitleKeepsDefault | background.js:111-117 | without a usable title in time, the name is left to the browser after 11 lookups and the table is unchanged |
| Downloads.LateTitleLingers | background.js:39-41 | a title that arrives after the last lookup is still stored, and stays in the table after its download has finished |
| Downloads.StoredThenRemoved | background.js:109 | storing and then consuming an entry leaves every other entry as it was |
| Downloads.Renamer.constructor | background.js:3 | the table starts empty |
| Downloads.Renamer.ReceiveTitle | background.js:33-43 | only a truthy title is stored, under the download id; the table keeps only truthy titles |
| Downloads.Renamer.AttemptRename | background.js:90-119 | with a stored title: suggest the new name with `uniquify` and delete exactly that id; otherwise: schedule `retryCount + 1` while below 10, else suggest nothing; the table is untouched |
| Downloads.Renamer.Download | background.js:81-126 | another site's download gives `false`, no `suggest` call and no state change; a target download gets exactly one `suggest` call, with the argument and lookup count `RunFrom` gives, and leaves the table as `Settled` describes |

## Left out

- Browser wiring is not modelled: listener registration, `tabs.query`, `tabs.sendMessage` and `runtime.lastError`. The answer to the title request is a `Reply`: an optional title and the moment it arrives. No tab, a messaging error and a response without a title all give a title of `None`.
- The 100 ms `setTimeout` delay is not modelled. Each re-scheduling is one step of the loop in `Download`.
- Two downloads running at once are not modelled. `Download` runs one download from its title request to its `suggest` call. The table it leaves behind is the starting point for the next one.
- URL parsing (`new URL(url).hostname`) is the parameter `hostOf`. `None` stands for the exception.
- `normalize('NFC')` is the parameter `nfc`. Unicode normalisation is not defined in the model.
- Text.Lower: lowercases ASCII letters only. Full Unicode case mapping can change a string's length, which would shift the index found at line 59 against the original string.
- Strings are sequences of code points. JavaScript strings are sequences of UTF-16 code units, so an astral character counts as one character here and as two there.
- A `response.title` that is truthy but not a string is not modelled. Titles are strings or absent.
- `console` logging is not modelled.
- The content script (`content.js`) is not part of this model.
