/**
 * The word blacklist of the automod cog as a value: `cache["bannedWords"]`,
 * a dictionary from banned word to the list of its flags. Python
 * dictionaries iterate in insertion order and that order decides which
 * entry a message is judged by, so the dictionary is the sequence of its
 * keys in order together with the map from key to flags.
 *
 * This module holds what each command and the message hook compute, as
 * functions of the blacklist, and the properties proved about them.
 */
module Blacklist {
  import opened Text
  import opened Matching

  datatype Flag = Delete | Whole | Case

  /** The string stored in the flag list for each flag. */
  function FlagName(f: Flag): string
  {
    match f
    case Delete => "delete"
    case Whole => "whole"
    case Case => "case"
  }

  /** What the flag picker lets through: one to three different flags. */
  predicate ValidSelection(fs: seq<Flag>)
  {
    1 <= |fs| <= 3 && forall i, j :: 0 <= i < j < |fs| ==> fs[i] != fs[j]
  }

  datatype Option<T> = None | Some(value: T)

  /** `cache["bannedWords"]`: the keys in insertion order and each key's flags. */
  datatype BannedWords = BannedWords(words: seq<string>, flags: map<string, seq<Flag>>)

  /** The blacklist of a fresh cache (`default_cache`). */
  const Empty: BannedWords := BannedWords([], map[])

  predicate Distinct(ws: seq<string>)
  {
    forall i, j :: 0 <= i < j < |ws| ==> ws[i] != ws[j]
  }

  /** Every listed word has flags. */
  predicate Keyed(words: seq<string>, flags: map<string, seq<Flag>>)
  {
    forall i :: 0 <= i < |words| ==> words[i] in flags
  }

  /** The key sequence and the map describe one dictionary of valid entries. */
  ghost predicate Wf(b: BannedWords)
  {
    && Distinct(b.words)
    && (forall w :: w in b.flags <==> w in b.words)
    && (forall w :: w in b.flags ==> ValidSelection(b.flags[w]))
  }

  lemma WfKeyed(b: BannedWords)
    requires Wf(b)
    ensures Keyed(b.words, b.flags)
  {
    assert forall i :: 0 <= i < |b.words| ==> b.words[i] in b.words;
  }

  // ---------------------------------------------------------------------------
  // Adding and removing a word
  // ---------------------------------------------------------------------------

  datatype Outcome = Done | AlreadyBanned | NotFound

  datatype Update = Update(cache: BannedWords, outcome: Outcome)

  /** `bl_add` with its flag-picker callback: refuse a present key, else insert at the end. */
  function Add(b: BannedWords, word: string, selected: seq<Flag>): (r: Update)
    ensures r.outcome != NotFound
    ensures r.cache.flags.Keys == b.flags.Keys + {word}
  {
    if word in b.flags then Update(b, AlreadyBanned)
    else Update(BannedWords(b.words + [word], b.flags[word := selected]), Done)
  }

  /** `bl_remove`: refuse a missing key, else pop it. */
  function Remove(b: BannedWords, word: string): (r: Update)
    ensures r.outcome != AlreadyBanned
    ensures r.cache.flags.Keys == b.flags.Keys - {word}
  {
    if word !in b.flags then Update(b, NotFound)
    else Update(BannedWords(Without(b.words, word), b.flags - {word}), Done)
  }

  /** `ws` with every occurrence of `w` taken out, the rest in order. */
  function Without(ws: seq<string>, w: string): (r: seq<string>)
    ensures forall v :: v in r <==> v in ws && v != w
    ensures Distinct(ws) ==> Distinct(r)
  {
    if ws == [] then []
    else
      var rest := Without(ws[1..], w);
      if ws[0] == w then rest
      else
        assert Distinct(ws) ==> ws[0] !in ws[1..];
        [ws[0]] + rest
  }

  lemma {:induction false} WithoutAbsent(ws: seq<string>, w: string)
    requires w !in ws
    ensures Without(ws, w) == ws
  {
    if ws != [] {
      WithoutAbsent(ws[1..], w);
    }
  }

  /** Taking out the word at position `i` of a duplicate-free sequence keeps the others in order. */
  lemma {:induction false} WithoutAt(ws: seq<string>, i: nat)
    requires Distinct(ws) && i < |ws|
    ensures Without(ws, ws[i]) == ws[..i] + ws[i + 1..]
  {
    if i == 0 {
      WithoutAbsent(ws[1..], ws[0]);
    } else {
      assert ws[1..][i - 1] == ws[i];
      WithoutAt(ws[1..], i - 1);
      assert ws[..i] == [ws[0]] + ws[1..][..i - 1];
      assert ws[i + 1..] == ws[1..][i..];
    }
  }

  /** `bl_add` keeps the blacklist well formed. */
  lemma AddKeepsWf(b: BannedWords, word: string, selected: seq<Flag>)
    requires Wf(b) && ValidSelection(selected)
    ensures Wf(Add(b, word, selected).cache)
  {
    if word !in b.flags {
      var ws := b.words + [word];
      forall i, j | 0 <= i < j < |ws|
        ensures ws[i] != ws[j]
      {
        if j == |b.words| {
          assert ws[i] in b.words;
        }
      }
    }
  }

  /** `bl_remove` keeps the blacklist well formed. */
  lemma RemoveKeepsWf(b: BannedWords, word: string)
    requires Wf(b)
    ensures Wf(Remove(b, word).cache)
  {
  }

  /** A word already present is refused and nothing changes. */
  lemma AddPresent(b: BannedWords, word: string, selected: seq<Flag>)
    requires Wf(b) && word in b.words
    ensures Add(b, word, selected) == Update(b, AlreadyBanned)
  {
  }

  /**
   * A new word is appended with the selected flags; every other entry keeps
   * its flags and its position.
   */
  lemma AddAbsent(b: BannedWords, word: string, selected: seq<Flag>)
    requires Wf(b) && word !in b.words
    ensures var r := Add(b, word, selected);
      && r.outcome == Done
      && r.cache.words == b.words + [word]
      && r.cache.flags.Keys == b.flags.Keys + {word}
      && r.cache.flags[word] == selected
      && forall v :: v in b.flags ==> r.cache.flags[v] == b.flags[v]
  {
  }

  /** Banning the same word twice fails the second time. */
  lemma AddTwice(b: BannedWords, word: string, selected: seq<Flag>, selected': seq<Flag>)
    ensures var once := Add(b, word, selected).cache;
      Add(once, word, selected') == Update(once, AlreadyBanned)
  {
  }

  /** A missing word is reported and nothing changes. */
  lemma RemoveAbsent(b: BannedWords, word: string)
    requires Wf(b) && word !in b.words
    ensures Remove(b, word) == Update(b, NotFound)
  {
  }

  /** Removing the word at position `i` drops exactly that entry; the rest keep their order and flags. */
  lemma RemoveAt(b: BannedWords, i: nat)
    requires Wf(b) && i < |b.words|
    ensures var r := Remove(b, b.words[i]);
      && r.outcome == Done
      && r.cache.words == b.words[..i] + b.words[i + 1..]
      && r.cache.flags.Keys == b.flags.Keys - {b.words[i]}
      && forall v :: v in r.cache.flags ==> r.cache.flags[v] == b.flags[v]
  {
    WithoutAt(b.words, i);
  }

  /** Banning a new word and then unbanning it restores the blacklist, order included. */
  lemma AddThenRemove(b: BannedWords, word: string, selected: seq<Flag>)
    requires Wf(b) && word !in b.words
    ensures Add(b, word, selected).outcome == Done
    ensures Remove(Add(b, word, selected).cache, word) == Update(b, Done)
  {
    var ws := b.words + [word];
    WithoutAt(ws, |b.words|);
    assert ws[..|b.words|] + ws[|b.words| + 1..] == b.words;
    assert b.flags[word := selected] - {word} == b.flags;
  }

  // ---------------------------------------------------------------------------
  // Judging a message
  // ---------------------------------------------------------------------------

  /** One entry's test, with `whole` and `case` read off its flags. */
  predicate EntryMatches(content: string, word: string, fs: seq<Flag>)
  {
    Matches(content, word, Whole in fs, Case in fs)
  }

  /** Each entry's result under a test `m` of its word and flags, in iteration order. */
  function HitsBy(words: seq<string>, flags: map<string, seq<Flag>>, m: (string, seq<Flag>) -> bool): (h: seq<bool>)
    requires Keyed(words, flags)
    ensures |h| == |words|
    ensures forall i :: 0 <= i < |words| ==> h[i] == m(words[i], flags[words[i]])
  {
    seq(|words|, i requires 0 <= i < |words| => m(words[i], flags[words[i]]))
  }

  /** The test of one entry against `content`. */
  function EntryTest(content: string): (string, seq<Flag>) -> bool
  {
    (word, fs) => EntryMatches(content, word, fs)
  }

  /** The entries' test results, in iteration order. */
  function Hits(words: seq<string>, flags: map<string, seq<Flag>>, content: string): (h: seq<bool>)
    requires Keyed(words, flags)
    ensures |h| == |words|
    ensures forall i :: 0 <= i < |words| ==> h[i] == EntryMatches(content, words[i], flags[words[i]])
  {
    HitsBy(words, flags, EntryTest(content))
  }

  /** Position of the first `true`, if any. */
  function FirstTrue(hits: seq<bool>): (r: Option<nat>)
    ensures r.Some? ==> r.value < |hits| && hits[r.value]
    ensures forall j :: 0 <= j < |hits| && (r.None? || j < r.value) ==> !hits[j]
  {
    if hits == [] then None
    else if hits[0] then Some(0)
    else
      match FirstTrue(hits[1..])
      case None => None
      case Some(i) => Some(i + 1)
  }

  /** Position of the first entry, in iteration order, that catches `content`. */
  function FirstMatch(words: seq<string>, flags: map<string, seq<Flag>>, content: string): Option<nat>
    requires Keyed(words, flags)
  {
    FirstTrue(Hits(words, flags, content))
  }

  /** The decision of `on_message`: delete exactly when the first catching entry carries `delete`. */
  predicate ShouldDelete(b: BannedWords, content: string, authorIsBot: bool)
    requires Keyed(b.words, b.flags)
  {
    && !authorIsBot
    && match FirstMatch(b.words, b.flags, content)
       case None => false
       case Some(i) => Delete in b.flags[b.words[i]]
  }

  /** The entry at `i` catches the message, carries `delete`, and no earlier entry catches it. */
  predicate DecidingEntry(b: BannedWords, content: string, i: int)
    requires Keyed(b.words, b.flags)
  {
    && 0 <= i < |b.words|
    && EntryMatches(content, b.words[i], b.flags[b.words[i]])
    && Delete in b.flags[b.words[i]]
    && forall j :: 0 <= j < i ==> !EntryMatches(content, b.words[j], b.flags[b.words[j]])
  }

  /**
   * First match wins: a message by a person is deleted exactly when some
   * entry catches it, carries `delete`, and no earlier entry catches it.
   */
  lemma ShouldDeleteIff(b: BannedWords, content: string, authorIsBot: bool)
    requires Keyed(b.words, b.flags)
    ensures ShouldDelete(b, content, authorIsBot) <==> !authorIsBot && exists i :: DecidingEntry(b, content, i)
  {
    var h := Hits(b.words, b.flags, content);
    if ShouldDelete(b, content, authorIsBot) {
      var i := FirstTrue(h).value;
      assert DecidingEntry(b, content, i);
    }
    if i :| DecidingEntry(b, content, i) {
      FirstTrueAt(h, i);
    }
  }

  /** The entry that catches a message first decides alone, whatever follows it. */
  lemma FirstMatchDecides(b: BannedWords, content: string, i: nat)
    requires Keyed(b.words, b.flags) && i < |b.words|
    requires EntryMatches(content, b.words[i], b.flags[b.words[i]])
    requires forall j :: 0 <= j < i ==> !EntryMatches(content, b.words[j], b.flags[b.words[j]])
    ensures ShouldDelete(b, content, false) == (Delete in b.flags[b.words[i]])
  {
    FirstTrueAt(Hits(b.words, b.flags, content), i);
  }

  lemma FirstTrueAt(h: seq<bool>, i: nat)
    requires i < |h| && h[i]
    requires forall j :: 0 <= j < i ==> !h[j]
    ensures FirstTrue(h) == Some(i)
  {
    var r := FirstTrue(h);
    assert r.Some? && r.value == i;
  }

  /** Entries after the first match are never looked at. */
  lemma LaterEntriesIgnored(words: seq<string>, rest: seq<string>, flags: map<string, seq<Flag>>, content: string)
    requires Keyed(words + rest, flags)
    requires Keyed(words, flags) && FirstMatch(words, flags, content).Some?
    ensures FirstMatch(words + rest, flags, content) == FirstMatch(words, flags, content)
  {
    HitsConcat(words, rest, flags, content);
    FirstTrueConcat(Hits(words, flags, content), Hits(rest, flags, content));
  }

  lemma HitsConcat(words: seq<string>, rest: seq<string>, flags: map<string, seq<Flag>>, content: string)
    requires Keyed(words + rest, flags)
    ensures Keyed(words, flags) && Keyed(rest, flags)
    ensures Hits(words + rest, flags, content) == Hits(words, flags, content) + Hits(rest, flags, content)
  {
    HitsByConcat(words, rest, flags, EntryTest(content));
  }

  lemma HitsByConcat(words: seq<string>, rest: seq<string>, flags: map<string, seq<Flag>>, m: (string, seq<Flag>) -> bool)
    requires Keyed(words + rest, flags)
    ensures Keyed(words, flags) && Keyed(rest, flags)
    ensures HitsBy(words + rest, flags, m) == HitsBy(words, flags, m) + HitsBy(rest, flags, m)
  {
    var ws := words + rest;
    assert forall i :: 0 <= i < |words| ==> words[i] == ws[i];
    assert forall i :: 0 <= i < |rest| ==> rest[i] == ws[|words| + i];
    var h, h' := HitsBy(words, flags, m), HitsBy(rest, flags, m);
    var hs := HitsBy(ws, flags, m);
    assert forall i :: 0 <= i < |words| ==> hs[i] == h[i];
    assert forall i :: 0 <= i < |rest| ==> hs[|words| + i] == h'[i];
  }

  lemma {:induction false} FirstTrueConcat(h: seq<bool>, h': seq<bool>)
    requires FirstTrue(h).Some?
    ensures FirstTrue(h + h') == FirstTrue(h)
  {
    if !h[0] {
      assert (h + h')[1..] == h[1..] + h';
      FirstTrueConcat(h[1..], h');
    }
  }

  /**
   * In a two-entry blacklist, a non-deleting entry placed first masks a
   * deleting entry that also matches.
   */
  lemma EarlierEntryMasks(b: BannedWords, content: string)
    requires Keyed(b.words, b.flags) && |b.words| == 2
    requires EntryMatches(content, b.words[0], b.flags[b.words[0]]) && Delete !in b.flags[b.words[0]]
    requires EntryMatches(content, b.words[1], b.flags[b.words[1]]) && Delete in b.flags[b.words[1]]
    ensures !ShouldDelete(b, content, false)
  {
  }

  /** Bots are never judged; an empty blacklist, or one nothing in it catches, never deletes. */
  lemma NoMatchNoDelete(b: BannedWords, content: string, authorIsBot: bool)
    requires Keyed(b.words, b.flags)
    requires authorIsBot || forall j :: 0 <= j < |b.words| ==> !EntryMatches(content, b.words[j], b.flags[b.words[j]])
    ensures !ShouldDelete(b, content, authorIsBot)
  {
  }

  /** Only entries at the listed words matter to the scan. */
  lemma FirstMatchFrame(words: seq<string>, flags: map<string, seq<Flag>>, flags': map<string, seq<Flag>>, content: string)
    requires Keyed(words, flags) && Keyed(words, flags')
    requires forall i :: 0 <= i < |words| ==> flags[words[i]] == flags'[words[i]]
    ensures FirstMatch(words, flags, content) == FirstMatch(words, flags', content)
  {
    var h, h' := Hits(words, flags, content), Hits(words, flags', content);
    assert forall i :: 0 <= i < |words| ==> h[i] == h'[i];
    assert h == h';
  }

  /** Appending an entry only matters to a message that no earlier entry catches. */
  lemma FirstMatchAppend(ws: seq<string>, flags: map<string, seq<Flag>>, word: string, fs: seq<Flag>, content: string)
    requires Keyed(ws, flags) && word !in ws
    ensures Keyed(ws + [word], flags[word := fs])
    ensures FirstMatch(ws + [word], flags[word := fs], content) ==
      if FirstMatch(ws, flags, content).Some? then FirstMatch(ws, flags, content)
      else if EntryMatches(content, word, fs) then Some(|ws|)
      else None
  {
    var flags' := flags[word := fs];
    assert forall i :: 0 <= i < |ws| ==> ws[i] in ws;
    FirstMatchFrame(ws, flags, flags', content);
    HitsConcat(ws, [word], flags', content);
    var h, last := Hits(ws, flags', content), Hits([word], flags', content);
    assert last == [EntryMatches(content, word, fs)];
    if FirstTrue(h).Some? {
      FirstTrueConcat(h, last);
    } else if last[0] {
      FirstTrueAt(h + last, |ws|);
    } else {
      assert forall i :: 0 <= i < |h + last| ==> !(h + last)[i];
    }
  }

  /**
   * A newly banned word goes last, so it decides a message only when no
   * older entry catches it.
   */
  lemma AddedWordDecidesLast(b: BannedWords, word: string, selected: seq<Flag>, content: string, authorIsBot: bool)
    requires Wf(b) && ValidSelection(selected) && word !in b.words
    ensures Keyed(Add(b, word, selected).cache.words, Add(b, word, selected).cache.flags)
    ensures ShouldDelete(Add(b, word, selected).cache, content, authorIsBot) ==
      if FirstMatch(b.words, b.flags, content).Some? then ShouldDelete(b, content, authorIsBot)
      else !authorIsBot && EntryMatches(content, word, selected) && Delete in selected
  {
    var b' := Add(b, word, selected).cache;
    WfKeyed(b);
    FirstMatchAppend(b.words, b.flags, word, selected, content);
    assert forall i :: 0 <= i < |b.words| ==> b'.words[i] == b.words[i] && b.words[i] in b.words;
  }

  /** A one-entry blacklist deletes a human's message exactly when its entry matches and carries `delete`. */
  lemma SingleEntry(w: string, fs: seq<Flag>, content: string)
    ensures ShouldDelete(BannedWords([w], map[w := fs]), content, false)
      <==> EntryMatches(content, w, fs) && Delete in fs
  {
    var b := BannedWords([w], map[w := fs]);
    ShouldDeleteIff(b, content, false);
    if EntryMatches(content, w, fs) && Delete in fs {
      assert DecidingEntry(b, content, 0);
    }
  }

  /** The entry "spam" with only `delete` catches "buy spam now". */
  lemma SpamInMessage()
    ensures EntryMatches("buy spam now", "spam", [Delete])
  {
    assert "buy spam now"[4..8] == "spam";
    assert OccursAt("buy spam now", "spam", 4);
    SubstringRule("buy spam now", "spam", true);
    CaseSensitiveIsStricter("buy spam now", "spam", false);
  }

  /** A blacklist banning "spam" with the `delete` flag alone. */
  const SpamOnly := BannedWords(["spam"], map["spam" := [Delete]])

  /** A message holding a banned word that carries `delete` is deleted. */
  lemma ExampleSpam()
    ensures ShouldDelete(SpamOnly, "buy spam now", false)
  {
    SpamInMessage();
    SingleEntry("spam", [Delete], "buy spam now");
  }

  // ---------------------------------------------------------------------------
  // The listing
  // ---------------------------------------------------------------------------

  /** Each flag followed by a space. */
  function FlagsText(fs: seq<Flag>): string
  {
    if fs == [] then "" else FlagsText(fs[..|fs| - 1]) + FlagName(fs[|fs| - 1]) + " "
  }

  /** One line of the listing: the word, a colon and a space, the flags, a line break. */
  function Line(word: string, fs: seq<Flag>): string
  {
    word + ": " + FlagsText(fs) + "\n"
  }

  /** The lines of the listing, one per word, in iteration order. */
  function Lines(words: seq<string>, flags: map<string, seq<Flag>>): (ls: seq<string>)
    requires Keyed(words, flags)
  {
    seq(|words|, i requires 0 <= i < |words| => Line(words[i], flags[words[i]]))
  }

  /** The strings of `ls` one after the other. */
  function Concat(ls: seq<string>): string
  {
    if ls == [] then "" else Concat(ls[..|ls| - 1]) + ls[|ls| - 1]
  }

  /** `bl_list`'s text. */
  function Listing(words: seq<string>, flags: map<string, seq<Flag>>): string
    requires Keyed(words, flags)
  {
    Concat(Lines(words, flags))
  }

  /** An empty blacklist lists as the empty string. */
  lemma ListingEmpty(flags: map<string, seq<Flag>>)
    ensures Listing([], flags) == ""
  {
  }

  lemma FlagsTextStep(head: string, fs: seq<Flag>, k: nat)
    requires k < |fs|
    ensures head + FlagsText(fs[..k]) + FlagName(fs[k]) + " " == head + FlagsText(fs[..k + 1])
  {
    assert fs[..k + 1][..k] == fs[..k];
  }

  lemma LineParts(before: string, word: string, fs: seq<Flag>)
    ensures before + word + ": " + FlagsText(fs) + "\n" == before + Line(word, fs)
  {
  }

  lemma ListingStep(words: seq<string>, flags: map<string, seq<Flag>>, i: nat)
    requires Keyed(words, flags) && i < |words|
    ensures Keyed(words[..i], flags) && Keyed(words[..i + 1], flags)
    ensures Listing(words[..i + 1], flags) == Listing(words[..i], flags) + Line(words[i], flags[words[i]])
  {
    var ls := Lines(words[..i + 1], flags);
    assert ls[..i] == Lines(words[..i], flags);
  }

  lemma {:induction false} ConcatAppend(ls: seq<string>, ls': seq<string>)
    ensures Concat(ls + ls') == Concat(ls) + Concat(ls')
    decreases |ls'|
  {
    if ls' == [] {
      assert ls + ls' == ls;
    } else {
      var n := |ls'| - 1;
      var all := ls + ls';
      assert all[..|all| - 1] == ls + ls'[..n];
      assert all[|all| - 1] == ls'[n];
      ConcatAppend(ls, ls'[..n]);
      assert Concat(all) == Concat(ls) + Concat(ls'[..n]) + ls'[n];
      assert Concat(ls') == Concat(ls'[..n]) + ls'[n];
    }
  }

  /** The listing of consecutive runs of words is the concatenation of their listings. */
  lemma ListingConcat(ws: seq<string>, ws': seq<string>, flags: map<string, seq<Flag>>)
    requires Keyed(ws + ws', flags)
    ensures Keyed(ws, flags) && Keyed(ws', flags)
    ensures Listing(ws + ws', flags) == Listing(ws, flags) + Listing(ws', flags)
  {
    assert forall i :: 0 <= i < |ws| ==> ws[i] == (ws + ws')[i];
    assert forall i :: 0 <= i < |ws'| ==> ws'[i] == (ws + ws')[|ws| + i];
    assert Lines(ws + ws', flags) == Lines(ws, flags) + Lines(ws', flags);
    ConcatAppend(Lines(ws, flags), Lines(ws', flags));
  }

  lemma ListingFrame(ws: seq<string>, flags: map<string, seq<Flag>>, flags': map<string, seq<Flag>>)
    requires Keyed(ws, flags) && Keyed(ws, flags')
    requires forall i :: 0 <= i < |ws| ==> flags[ws[i]] == flags'[ws[i]]
    ensures Listing(ws, flags) == Listing(ws, flags')
  {
    assert Lines(ws, flags) == Lines(ws, flags');
  }

  /** A word appended with its flags adds its line at the end of the listing. */
  lemma ListingAppend(ws: seq<string>, flags: map<string, seq<Flag>>, word: string, fs: seq<Flag>)
    requires Keyed(ws, flags) && word !in ws
    ensures Keyed(ws + [word], flags[word := fs])
    ensures Listing(ws + [word], flags[word := fs]) == Listing(ws, flags) + Line(word, fs)
  {
    var flags' := flags[word := fs];
    assert forall i :: 0 <= i < |ws| ==> ws[i] in ws;
    ListingFrame(ws, flags, flags');
    ListingConcat(ws, [word], flags');
    var one := Lines([word], flags');
    assert one == [Line(word, fs)];
    assert one[..0] == [];
    assert Concat(one) == Concat(one[..0]) + one[0];
  }

  /** Banning a new word adds its line at the end of the listing. */
  lemma ListingAfterAdd(b: BannedWords, word: string, selected: seq<Flag>)
    requires Wf(b) && word !in b.words
    ensures Keyed(Add(b, word, selected).cache.words, Add(b, word, selected).cache.flags)
    ensures Listing(Add(b, word, selected).cache.words, Add(b, word, selected).cache.flags)
      == Listing(b.words, b.flags) + Line(word, selected)
  {
    assert forall i :: 0 <= i < |b.words| ==> b.words[i] in b.words;
    ListingAppend(b.words, b.flags, word, selected);
  }

  /** The listing around position `i`: the lines before, the line of `ws[i]`, the lines after. */
  lemma ListingAround(ws: seq<string>, flags: map<string, seq<Flag>>, i: nat)
    requires Keyed(ws, flags) && i < |ws|
    ensures Keyed(ws[..i], flags) && Keyed(ws[i + 1..], flags)
    ensures Listing(ws, flags) == Listing(ws[..i], flags) + Line(ws[i], flags[ws[i]]) + Listing(ws[i + 1..], flags)
  {
    assert ws[..i + 1] + ws[i + 1..] == ws;
    ListingConcat(ws[..i + 1], ws[i + 1..], flags);
    ListingStep(ws, flags, i);
  }

  /** Dropping position `i` under a smaller map that agrees on its keys drops exactly that line. */
  lemma ListingDrop(ws: seq<string>, flags: map<string, seq<Flag>>, flags': map<string, seq<Flag>>, i: nat)
    requires Keyed(ws, flags) && i < |ws| && Keyed(ws[..i] + ws[i + 1..], flags')
    requires forall v :: v in flags' ==> v in flags && flags'[v] == flags[v]
    ensures Keyed(ws[..i], flags) && Keyed(ws[i + 1..], flags)
    ensures Listing(ws[..i] + ws[i + 1..], flags') == Listing(ws[..i], flags) + Listing(ws[i + 1..], flags)
  {
    var ws' := ws[..i] + ws[i + 1..];
    ListingFrame(ws', flags, flags');
    ListingConcat(ws[..i], ws[i + 1..], flags);
  }

  /** Unbanning the word at position `i` removes exactly its line from the listing. */
  lemma ListingAfterRemove(b: BannedWords, i: nat)
    requires Wf(b) && i < |b.words|
    ensures Keyed(b.words[..i], b.flags) && Keyed(b.words[i + 1..], b.flags)
    ensures Keyed(Remove(b, b.words[i]).cache.words, Remove(b, b.words[i]).cache.flags)
    ensures Listing(b.words, b.flags)
      == Listing(b.words[..i], b.flags) + Line(b.words[i], b.flags[b.words[i]]) + Listing(b.words[i + 1..], b.flags)
    ensures Listing(Remove(b, b.words[i]).cache.words, Remove(b, b.words[i]).cache.flags)
      == Listing(b.words[..i], b.flags) + Listing(b.words[i + 1..], b.flags)
  {
    var ws := b.words;
    var b' := Remove(b, ws[i]).cache;
    WfKeyed(b);
    ListingAround(ws, b.flags, i);
    RemoveAt(b, i);
    RemoveKeepsWf(b, ws[i]);
    WfKeyed(b');
    ListingDrop(ws, b.flags, b'.flags, i);
  }

  /** Number of times `c` occurs in `s`. */
  function Occurrences(s: string, c: char): nat
  {
    if s == [] then 0 else (if s[0] == c then 1 else 0) + Occurrences(s[1..], c)
  }

  lemma {:induction false} OccurrencesConcat(s: string, t: string, c: char)
    ensures Occurrences(s + t, c) == Occurrences(s, c) + Occurrences(t, c)
  {
    if s == [] {
      assert s + t == t;
    } else {
      assert (s + t)[0] == s[0];
      assert (s + t)[1..] == s[1..] + t;
      OccurrencesConcat(s[1..], t, c);
    }
  }

  lemma {:induction false} OccurrencesAbsent(s: string, c: char)
    requires c !in s
    ensures Occurrences(s, c) == 0
  {
    if s != [] {
      assert s[0] in s;
      assert forall m :: 0 <= m < |s| - 1 ==> s[1..][m] in s;
      OccurrencesAbsent(s[1..], c);
    }
  }

  lemma {:induction false} FlagsTextOneLine(fs: seq<Flag>)
    ensures Occurrences(FlagsText(fs), '\n') == 0
  {
    if fs != [] {
      var n := |fs| - 1;
      var head, name := FlagsText(fs[..n]), FlagName(fs[n]);
      FlagsTextOneLine(fs[..n]);
      FlagNameOneLine(fs[n]);
      OccurrencesConcat(head, name, '\n');
      OccurrencesConcat(head + name, " ", '\n');
    }
  }

  lemma FlagNameOneLine(f: Flag)
    ensures Occurrences(FlagName(f), '\n') == 0
  {
    match f
    case Delete => assert Occurrences("delete", '\n') == 0;
    case Whole => assert Occurrences("whole", '\n') == 0;
    case Case => assert Occurrences("case", '\n') == 0;
  }

  /** A line whose word holds no line break holds exactly one, at its end. */
  lemma LineBreaks(word: string, fs: seq<Flag>)
    requires '\n' !in word
    ensures Occurrences(Line(word, fs), '\n') == 1
  {
    FlagsTextOneLine(fs);
    OccurrencesAbsent(word, '\n');
    OccurrencesConcat(word, ": ", '\n');
    OccurrencesConcat(word + ": ", FlagsText(fs), '\n');
    OccurrencesConcat(word + ": " + FlagsText(fs), "\n", '\n');
  }

  lemma {:induction false} ConcatBreaks(ls: seq<string>)
    requires forall i :: 0 <= i < |ls| ==> Occurrences(ls[i], '\n') == 1
    ensures Occurrences(Concat(ls), '\n') == |ls|
  {
    if ls != [] {
      var n := |ls| - 1;
      ConcatBreaks(ls[..n]);
      OccurrencesConcat(Concat(ls[..n]), ls[n], '\n');
    }
  }

  /** When no word holds a line break, the listing has exactly one line per word. */
  lemma ListingLineCount(ws: seq<string>, flags: map<string, seq<Flag>>)
    requires Keyed(ws, flags)
    requires forall i :: 0 <= i < |ws| ==> '\n' !in ws[i]
    ensures Occurrences(Listing(ws, flags), '\n') == |ws|
  {
    var ls := Lines(ws, flags);
    forall i | 0 <= i < |ls|
      ensures Occurrences(ls[i], '\n') == 1
    {
      LineBreaks(ws[i], flags[ws[i]]);
    }
    ConcatBreaks(ls);
  }
}
