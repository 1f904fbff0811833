/**
 * The automod cog's word blacklist as the object that owns it: the
 * in-memory cache (`self.cache["bannedWords"]`) as two fields, the ordered
 * keys and the word-to-flags map, which the commands update in place, and
 * the message hook that scans the cache.
 */
module AutoMod {
  import opened Text
  import opened Matching
  import opened Blacklist

  class AutoMod {
    /** The dictionary's keys, in insertion order. */
    var words: seq<string>
    /** Each key's flag list. */
    var flags: map<string, seq<Flag>>

    /** The cache as a value. */
    function Cache(): BannedWords
      reads this
    {
      BannedWords(words, flags)
    }

    ghost predicate Valid()
      reads this
    {
      Wf(Cache())
    }

    /** A cog whose stored document was absent: the cache starts from `default_cache`. */
    constructor ()
      ensures Valid()
      ensures Cache() == Empty
    {
      words := [];
      flags := map[];
    }

    /** `bl_add` and its flag-picker callback, run as one step. */
    method Add(bannedWord: string, selected: seq<Flag>) returns (outcome: Outcome)
      requires Valid() && ValidSelection(selected)
      modifies this
      ensures Valid()
      ensures outcome == (if bannedWord in old(words) then AlreadyBanned else Done)
      ensures Update(Cache(), outcome) == Blacklist.Add(old(Cache()), bannedWord, selected)
    {
      if bannedWord in flags {
        return AlreadyBanned;
      }
      AddKeepsWf(Cache(), bannedWord, selected);
      flags := flags[bannedWord := selected];
      words := words + [bannedWord];
      return Done;
    }

    /** `bl_remove`: pop the word, or report that it was not blacklisted. */
    method Remove(bannedWord: string) returns (outcome: Outcome)
      requires Valid()
      modifies this
      ensures Valid()
      ensures outcome == (if bannedWord in old(words) then Done else NotFound)
      ensures Update(Cache(), outcome) == Blacklist.Remove(old(Cache()), bannedWord)
    {
      if bannedWord !in flags {
        return NotFound;
      }
      RemoveKeepsWf(Cache(), bannedWord);
      flags := flags - {bannedWord};
      words := Without(words, bannedWord);
      return Done;
    }

    /** `bl_list`: build the listing line by line, flag by flag. */
    method List() returns (message: string)
      requires Keyed(words, flags)
      ensures message == Listing(words, flags)
    {
      var keys, entries := words, flags;
      message := "";
      var i := 0;
      while i < |keys|
        invariant 0 <= i <= |keys|
        invariant message == Listing(keys[..i], entries)
      {
        var bannedWord := keys[i];
        var fs := entries[bannedWord];
        ghost var before := message;
        message := message + bannedWord + ": ";
        ghost var head := message;
        var k := 0;
        while k < |fs|
          invariant 0 <= k <= |fs|
          invariant message == head + FlagsText(fs[..k])
        {
          FlagsTextStep(head, fs, k);
          message := message + FlagName(fs[k]) + " ";
          k := k + 1;
        }
        assert fs[..k] == fs;
        message := message + "\n";
        LineParts(before, bannedWord, fs);
        ListingStep(keys, entries, i);
        i := i + 1;
      }
      assert keys[..i] == keys;
    }

    /**
     * `on_message`: skip bots, then scan the entries in order and stop at
     * the first that catches the message; its `delete` flag decides.
     */
    method OnMessage(content: string, authorIsBot: bool) returns (delete: bool)
      requires Keyed(words, flags)
      ensures delete == ShouldDelete(Cache(), content, authorIsBot)
    {
      if authorIsBot {
        return false;
      }
      ghost var hits := Hits(words, flags, content);
      var i := 0;
      while i < |words|
        invariant 0 <= i <= |words|
        invariant forall j :: 0 <= j < i ==> !hits[j]
      {
        var bannedWord := words[i];
        var whole := Whole in flags[bannedWord];
        var caseSensitive := Case in flags[bannedWord];
        var found := FindBannedWord(content, bannedWord, whole, caseSensitive);
        assert found == hits[i];
        if found {
          FirstTrueAt(hits, i);
          return Delete in flags[bannedWord];
        }
        i := i + 1;
      }
      assert FirstTrue(hits).None?;
      return false;
    }
  }
}
