# Word-blacklist automod, modelled in Dafny

This project models the word-blacklist engine of the `automod` cog of a
Discord moderation bot (`cogs/automod.py`). The engine has four parts:

- **The blacklist**: `cache["bannedWords"]`, a Python dictionary that maps
  each banned word to the list of its flags (`delete`, `whole`, `case`).
  Python dictionaries iterate in insertion order, and that order decides
  which entry judges a message. So the dictionary is modelled as its key
  sequence plus a map from key to flags (`Blacklist.BannedWords`). In the
  object model these are the two fields of `AutoMod.AutoMod`.
- **The matcher** (`find_banned_word`, module `Matching`):
  - Without `case`, both sides are lower-cased first.
  - With `whole`, the message is split on single spaces and some piece must
    equal the word.
  - Otherwise the word must occur in the message as a substring.
- **The message hook** (`on_message`, `AutoMod.AutoMod.OnMessage`):
  - Bot authors are skipped.
  - The entries are scanned in order. The first entry that catches the
    message ends the scan, and its `delete` flag alone decides whether the
    message is deleted.
- **The commands**:
  - `blacklist add`, with its flag-picker callback;
  - `blacklist remove`;
  - `blacklist list`;
  - the empty cache that `load_cache` installs when no stored document
    exists.

Module layout:

| file | module | contents |
|---|---|---|
| `text.dfy` | `Text` | Python's `str.lower()` (ASCII letters), `str.split(' ')` (empty pieces kept) and `in` on strings, with their characterisations |
| `matching.dfy` | `Matching` | `find_banned_word` as a predicate and as a method with its loop, and the matching rules |
| `blacklist.dfy` | `Blacklist` | the blacklist value, what each command and the hook compute, and the lemmas about them |
| `automod.dfy` | `AutoMod` | the cog as a class whose methods update the cache in place, each proved against the `Blacklist` functions |

Three behaviours of the code that the model keeps as written:

- **Flags are a list, not a set.** A word's flags are the list the picker
  returned (`flags.values`). Their order shows up in `blacklist list`, so
  they are a `seq<Flag>`. The picker allows one to three different values
  (`ValidSelection`).
- **Split on single spaces only.** "Whole word" means a piece of
  `content.split(' ')`. Tabs and line breaks do not separate words.
  Adjacent, leading or trailing spaces give empty pieces, so the empty
  banned word matches under `whole` exactly when such a piece exists
  (`Matching.EmptyWordWhole`).
- **The first match decides.** The hook does not look for any deleting
  entry: it stops at the first entry that matches. A matching entry
  without `delete` that comes earlier therefore masks a later entry with
  `delete` (`Blacklist.EarlierEntryMasks`).

## Model

| member | source | states |
|---|---|---|
| Text.Lower | cogs/automod.py:78-79 | lower-casing keeps the length and maps every character through the ASCII lower-case map |
| Text.LowerCaseVariant | cogs/automod.py:78-79 | two strings that differ only in letter case lower-case to the same string |
| Text.LowerIdempotent | cogs/automod.py:78-79 | lower-casing twice is lower-casing once |
| Text.Split | cogs/automod.py:82 | `s.split(sep)` always has at least one piece, even for the empty string |
| Text.JoinSplit | cogs/automod.py:82 | joining the pieces of `s.split(sep)` with `sep` gives `s` back |
| Text.SplitJoin | cogs/automod.py:82 | splitting the join of at least one separator-free piece gives those pieces back |
| Text.SplitFreeOf | cogs/automod.py:82 | no piece of `s.split(sep)` contains `sep` |
| Text.SplitTokens | cogs/automod.py:82 | a string is a piece of `s.split(sep)` iff it is the text between two consecutive separators or ends of `s` |
| Text.ContainsOccurs | cogs/automod.py:90 | `w in s` iff `w` occurs in `s` at some position (so the empty word is in every string) |
| Matching.FindBannedWord | cogs/automod.py:74-90 | the search, including the early return of the token loop, returns exactly `Matches` of its inputs |
| Matching.SubstringRule | cogs/automod.py:90 | without `whole`, an entry matches iff the normalised word occurs at some position of the normalised message |
| Matching.WholeWordRule | cogs/automod.py:81-88 | with `whole`, an entry matches iff the normalised word is exactly the text between two spaces or ends of the normalised message |
| Matching.SpacedWordNeverWhole | cogs/automod.py:81-88 | a banned word containing a space never matches under `whole` |
| Matching.EmptyWordWhole | cogs/automod.py:81-88 | under `whole`, the empty word matches iff the message is empty or has a leading, trailing or doubled space |
| Matching.CaseInsensitiveRule | cogs/automod.py:77-79 | without `case`, changing the letter case of the message or of the word never changes the verdict |
| Matching.CaseSensitiveIsStricter | cogs/automod.py:77-90 | whatever matches with `case` also matches without it |
| Matching.ExampleSubstring | cogs/automod.py:90 | "broccoli" is found in "I hate broccoli" without flags |
| Matching.WholeInTwoPieces | cogs/automod.py:81-88 | on a lower-case message of two space-free pieces, a lower-case word matches under `whole` iff it equals one of the pieces |
| Matching.ExampleWholeMatch | cogs/automod.py:81-88 | "ass" with `whole` matches "ass hat" |
| Matching.ExampleWholeNoMatch | cogs/automod.py:81-88 | "ass" with `whole` does not match "class act" |
| Matching.ExampleCase | cogs/automod.py:77-90 | "Shut" with `case` matches "Shut up" and not "shut up" |
| Blacklist.FirstTrue | cogs/automod.py:59-65 | the scan stops at the first entry that matches: the position found matches and every earlier one does not; with no position found, none matches |
| Blacklist.ShouldDeleteIff | cogs/automod.py:53-69 | a message is deleted iff its author is not a bot and some entry matches it, carries `delete`, and no earlier entry matches it |
| Blacklist.SingleEntry | cogs/automod.py:53-69 | with one entry, a human's message is deleted iff that entry matches it and carries `delete` |
| Blacklist.ExampleSpam | cogs/automod.py:53-69 | a one-entry blacklist banning "spam" with `delete` deletes "buy spam now" from a human author |
| Blacklist.FirstMatchDecides | cogs/automod.py:59-65 | the first matching entry decides deletion alone, by its `delete` flag |
| Blacklist.LaterEntriesIgnored | cogs/automod.py:59-65 | once an entry matches, the entries after it do not change the outcome of the scan |
| Blacklist.EarlierEntryMasks | cogs/automod.py:59-65 | in a two-entry blacklist, an earlier matching entry without `delete` keeps a later matching entry with `delete` from deleting |
| Blacklist.NoMatchNoDelete | cogs/automod.py:53-69 | a bot author, an empty blacklist, or a message that no entry matches never leads to a deletion |
| Blacklist.FirstMatchFrame | cogs/automod.py:59-63 | the scan reads only the flags of the listed words |
| Blacklist.AddedWordDecidesLast | cogs/automod.py:133-134 | a newly banned word goes last: it decides a message only when no older entry matches it, and otherwise nothing changes |
| Blacklist.Without | cogs/automod.py:157 | popping a key keeps exactly the other keys and keeps them distinct |
| Blacklist.AddKeepsWf | cogs/automod.py:124-134 | adding keeps the blacklist well formed: distinct keys, the same keys in both views, and one to three different flags per key |
| Blacklist.RemoveKeepsWf | cogs/automod.py:157-164 | removing keeps the blacklist well formed: distinct keys, the same keys in both views, and one to three different flags per key |
| Blacklist.Add | cogs/automod.py:124-134 | `bl_add` never reports a missing word, and afterwards the banned words are the old ones plus the given word |
| Blacklist.Remove | cogs/automod.py:157-164 | `bl_remove` never reports an already banned word, and afterwards the banned words are the old ones minus the given word |
| Blacklist.AddPresent | cogs/automod.py:124-131 | adding a word that is already banned is refused and changes nothing |
| Blacklist.AddAbsent | cogs/automod.py:133-134 | adding a new word appends it with the selected flags; every other entry keeps its flags and position |
| Blacklist.AddTwice | cogs/automod.py:124-134 | adding the same word a second time is refused |
| Blacklist.RemoveAbsent | cogs/automod.py:157-164 | removing a word that is not banned is reported and changes nothing |
| Blacklist.RemoveAt | cogs/automod.py:157 | removing the word at position i drops exactly that entry; the others keep their order and flags |
| Blacklist.AddThenRemove | cogs/automod.py:124-164 | adding a new word and then removing it restores the blacklist, order included |
| Blacklist.ListingStep | cogs/automod.py:185-191 | each word adds its line, `word: flag flag ... \n`, at the end of the listing |
| Blacklist.ListingEmpty | cogs/automod.py:184-191 | an empty blacklist lists as the empty string |
| Blacklist.ListingConcat | cogs/automod.py:184-191 | the listing of two runs of words is the listing of the first followed by the listing of the second |
| Blacklist.ListingAfterAdd | cogs/automod.py:184-191 | after adding a new word, the listing is the old listing followed by the new word's line |
| Blacklist.ListingAfterRemove | cogs/automod.py:184-191 | removing the word at position i removes exactly its line from the listing |
| Blacklist.FlagsTextOneLine | cogs/automod.py:188-189 | the flags part of a line holds no line break |
| Blacklist.LineBreaks | cogs/automod.py:186-191 | a line whose word has no line break holds exactly one, at its end |
| Blacklist.ListingLineCount | cogs/automod.py:184-191 | when no word holds a line break, the listing has exactly one line per banned word |
| AutoMod.AutoMod.constructor | cogs/automod.py:45-50 | with no stored document, the cache starts as the empty `default_cache` blacklist, which is well formed |
| AutoMod.AutoMod.Add | cogs/automod.py:124-134 | refuses a present word and changes nothing; otherwise inserts the word with the selected flags; the new state is `Blacklist.Add` of the old one and stays well formed |
| AutoMod.AutoMod.Remove | cogs/automod.py:157-164 | refuses a missing word and changes nothing; otherwise pops it; the new state is `Blacklist.Remove` of the old one and stays well formed |
| AutoMod.AutoMod.List | cogs/automod.py:184-191 | the text built word by word and flag by flag is the `Listing` of the current blacklist |
| AutoMod.AutoMod.OnMessage | cogs/automod.py:53-69 | the deletion decision of the scan loop is `ShouldDelete` of the current blacklist |

## Left out

- Persistence is left out. This covers `update_db` and the branch of
  `load_cache` that reads a stored document. Only the fresh-cache start is
  modelled. The document database is an external service.
- Discord I/O is left out: deleting the message, the direct message to
  its author, the embeds and responses, and the `Select`/`View` flag
  picker. Messages become their text plus a bot-author flag. The picker
  becomes the selected flag list.
- The permission checks (`checks.has_permissions`) are left out. They run
  in code that is not part of this model.
- Asynchrony is left out:
  - `load_cache` is started as a background task, so the hook can run
    before the cache exists;
  - handlers can interleave;
  - the flag-picker callback can run after another command changed the
    cache, or more than once.
  `AutoMod.AutoMod.Add` runs the presence check and the callback's
  insertion as one step.
- `str.lower()` is modelled for ASCII letters only. Python's Unicode case
  mapping, including mappings that change the length of a string, is not
  modelled.
- Matching.CaseSensitiveIsStricter: holds only for ASCII lower-casing.
  Python lower-cases a final capital sigma to `ς` and any other to `σ`,
  so `'ΑΣ'` occurs in `'ΑΣΑ'` while `'ας'` does not occur in `'ασα'`:
  with Unicode input, an entry can match with `case` and miss without it.
- Matching.CaseInsensitiveRule: holds only for ASCII lower-casing. For
  the same final-sigma reason, changing the case of Unicode letters can
  change the verdict of an entry without `case`.
- The missing `await` on the error response in `bl_remove` (line 163) is
  left out. It only affects whether the error message is sent; the cache
  is unchanged either way.
- `bl_remove` detects a missing word by comparing `pop`'s result with a
  sentinel string. The model uses key membership instead. This is the same
  because stored values are lists, never that string.
