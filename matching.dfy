/**
 * The test that decides whether one blacklist entry catches a message
 * (`find_banned_word` in cogs/automod.py): optional lower-casing of both
 * sides, then either a whole-token comparison against the pieces of the
 * message split on single spaces, or a plain substring test.
 */
module Matching {
  import opened Text

  const Space: char := ' '

  /** The text as compared: lower-cased unless the comparison is case sensitive. */
  function Normalize(s: string, caseSensitive: bool): string
  {
    if caseSensitive then s else Lower(s)
  }

  /** Whether `bannedWord`, under the two flags, is found in `content`. */
  predicate Matches(content: string, bannedWord: string, whole: bool, caseSensitive: bool)
  {
    var c := Normalize(content, caseSensitive);
    var w := Normalize(bannedWord, caseSensitive);
    if whole then w in Split(c, Space) else Contains(c, w)
  }

  /** The search itself, with the early return of the token loop. */
  method FindBannedWord(content: string, bannedWord: string, whole: bool, caseSensitive: bool) returns (found: bool)
    ensures found == Matches(content, bannedWord, whole, caseSensitive)
  {
    var c, w := content, bannedWord;
    if !caseSensitive {
      c := Lower(c);
      w := Lower(w);
    }
    if whole {
      var words := Split(c, Space);
      var i := 0;
      while i < |words|
        invariant 0 <= i <= |words|
        invariant w !in words[..i]
      {
        if words[i] == w {
          return true;
        }
        i := i + 1;
      }
      assert words[..i] == words;
      return false;
    }
    return Contains(c, w);
  }

  // ---------------------------------------------------------------------------
  // What a match means
  // ---------------------------------------------------------------------------

  /** Without `whole`: the (normalised) word occurs somewhere in the (normalised) text. */
  lemma SubstringRule(content: string, bannedWord: string, caseSensitive: bool)
    ensures Matches(content, bannedWord, false, caseSensitive)
      <==> exists i: nat :: OccursAt(Normalize(content, caseSensitive), Normalize(bannedWord, caseSensitive), i)
  {
    ContainsOccurs(Normalize(content, caseSensitive), Normalize(bannedWord, caseSensitive));
  }

  /** With `whole`: the (normalised) word is exactly the text between two spaces or an end. */
  lemma WholeWordRule(content: string, bannedWord: string, caseSensitive: bool)
    ensures Matches(content, bannedWord, true, caseSensitive)
      <==> exists i: nat, j: nat :: IsToken(Normalize(content, caseSensitive), Space, i, j)
                                 && Normalize(content, caseSensitive)[i..j] == Normalize(bannedWord, caseSensitive)
  {
    SplitTokens(Normalize(content, caseSensitive), Space, Normalize(bannedWord, caseSensitive));
  }

  lemma NormalizeSpaces(s: string, caseSensitive: bool)
    ensures |Normalize(s, caseSensitive)| == |s|
    ensures forall m :: 0 <= m < |s| ==> (Normalize(s, caseSensitive)[m] == Space <==> s[m] == Space)
  {
  }

  /** A banned word holding a space never matches under `whole`. */
  lemma SpacedWordNeverWhole(content: string, bannedWord: string, caseSensitive: bool)
    requires Space in bannedWord
    ensures !Matches(content, bannedWord, true, caseSensitive)
  {
    var w := Normalize(bannedWord, caseSensitive);
    NormalizeSpaces(bannedWord, caseSensitive);
    var m :| 0 <= m < |bannedWord| && bannedWord[m] == Space;
    assert w[m] == Space;
    SplitFreeOf(Normalize(content, caseSensitive), Space);
  }

  /** The text splits into at least one empty piece. */
  predicate HasEmptyPiece(content: string)
  {
    || content == ""
    || content[0] == Space
    || content[|content| - 1] == Space
    || exists m :: 0 <= m < |content| - 1 && content[m] == Space && content[m + 1] == Space
  }

  /**
   * Under `whole`, the empty word matches exactly the texts that are empty
   * or have a leading, trailing or doubled space.
   */
  lemma EmptyWordWhole(content: string, caseSensitive: bool)
    ensures Matches(content, "", true, caseSensitive) <==> HasEmptyPiece(content)
  {
    if Matches(content, "", true, caseSensitive) {
      EmptyWordWholeOnlyIf(content, caseSensitive);
    }
    if HasEmptyPiece(content) {
      EmptyWordWholeIf(content, caseSensitive);
    }
  }

  lemma EmptyWordWholeOnlyIf(content: string, caseSensitive: bool)
    requires Matches(content, "", true, caseSensitive)
    ensures HasEmptyPiece(content)
  {
    var c := Normalize(content, caseSensitive);
    assert Normalize("", caseSensitive) == "";
    NormalizeSpaces(content, caseSensitive);
    WholeWordRule(content, "", caseSensitive);
    var i: nat, j: nat :| IsToken(c, Space, i, j) && c[i..j] == "";
    assert i == j;
    if 0 < i < |c| {
      assert content[i - 1] == Space && content[i] == Space;
    }
  }

  lemma EmptyWordWholeIf(content: string, caseSensitive: bool)
    requires HasEmptyPiece(content)
    ensures Matches(content, "", true, caseSensitive)
  {
    var c := Normalize(content, caseSensitive);
    assert Normalize("", caseSensitive) == "";
    NormalizeSpaces(content, caseSensitive);
    var i: nat;
    if content == "" || content[0] == Space {
      i := 0;
    } else if content[|content| - 1] == Space {
      i := |c|;
    } else {
      var m :| 0 <= m < |content| - 1 && content[m] == Space && content[m + 1] == Space;
      i := m + 1;
    }
    assert IsToken(c, Space, i, i) && c[i..i] == "";
    TokenInSplit(c, Space, i, i);
  }

  /** Without `case`, changing the letter case of either side changes nothing. */
  lemma CaseInsensitiveRule(content: string, content': string, bannedWord: string, bannedWord': string, whole: bool)
    requires CaseVariant(content, content') && CaseVariant(bannedWord, bannedWord')
    ensures Matches(content, bannedWord, whole, false) == Matches(content', bannedWord', whole, false)
  {
    LowerCaseVariant(content, content');
    LowerCaseVariant(bannedWord, bannedWord');
  }

  /** Adding the `case` flag can only make an entry stricter. */
  lemma CaseSensitiveIsStricter(content: string, bannedWord: string, whole: bool)
    ensures Matches(content, bannedWord, whole, true) ==> Matches(content, bannedWord, whole, false)
  {
    if whole {
      WholeWordRule(content, bannedWord, true);
      WholeWordRule(content, bannedWord, false);
      if Matches(content, bannedWord, true, true) {
        var i: nat, j: nat :| IsToken(content, Space, i, j) && content[i..j] == bannedWord;
        TokenSurvivesLowering(content, i, j);
      }
    } else {
      SubstringRule(content, bannedWord, true);
      SubstringRule(content, bannedWord, false);
      if Matches(content, bannedWord, false, true) {
        var i: nat :| OccursAt(content, bannedWord, i);
        assert Lower(content)[i..i + |bannedWord|] == Lower(bannedWord);
        assert OccursAt(Lower(content), Lower(bannedWord), i);
      }
    }
  }

  lemma TokenSurvivesLowering(s: string, i: nat, j: nat)
    requires IsToken(s, Space, i, j)
    ensures IsToken(Lower(s), Space, i, j) && Lower(s)[i..j] == Lower(s[i..j])
  {
    var c, t := Lower(s), s[i..j];
    var lt := Lower(t);
    NormalizeSpaces(s, false);
    NormalizeSpaces(t, false);
    assert forall m :: 0 <= m < |t| ==> c[i..j][m] == lt[m];
    assert c[i..j] == lt;
    assert forall m :: 0 <= m < |t| ==> t[m] in t;
    assert forall m :: 0 <= m < |lt| ==> lt[m] != Space;
  }

  // ---------------------------------------------------------------------------
  // Worked examples
  // ---------------------------------------------------------------------------

  lemma LowerFixed(s: string)
    requires forall m :: 0 <= m < |s| ==> !IsUpper(s[m])
    ensures Lower(s) == s
  {
  }

  lemma ExampleSubstring()
    ensures Matches("I hate broccoli", "broccoli", false, false)
  {
    assert "I hate broccoli"[7..15] == "broccoli";
    assert OccursAt("I hate broccoli", "broccoli", 7);
    SubstringRule("I hate broccoli", "broccoli", true);
    CaseSensitiveIsStricter("I hate broccoli", "broccoli", false);
  }

  /** The pieces of a separator-free join are the joined strings. */
  lemma SplitTwo(a: string, b: string)
    requires Space !in a && Space !in b
    ensures Split(a + [Space] + b, Space) == [a, b]
  {
    assert Join([a, b], Space) == a + [Space] + b;
    SplitJoin([a, b], Space);
  }

  /**
   * On a lower-case message made of two space-free pieces, a lower-case
   * word matches under `whole` exactly when it is one of the two pieces.
   */
  lemma WholeInTwoPieces(a: string, b: string, w: string)
    requires Space !in a && Space !in b
    requires Lower(a + [Space] + b) == a + [Space] + b && Lower(w) == w
    ensures Matches(a + [Space] + b, w, true, false) <==> w == a || w == b
  {
    SplitTwo(a, b);
  }

  lemma ExampleWholeMatch()
    ensures Matches("ass hat", "ass", true, false)
  {
    LowerFixed("ass");
    LowerFixed("ass hat");
    assert "ass hat" == "ass" + [Space] + "hat";
    WholeInTwoPieces("ass", "hat", "ass");
  }

  /** "class act" is the lower-case pieces "class" and "act", neither of them "ass". */
  lemma ClassActPieces()
    ensures "class act" == "class" + [Space] + "act"
    ensures Lower("class act") == "class act" && Lower("ass") == "ass"
    ensures "ass" != "class" && "ass" != "act"
  {
    LowerFixed("ass");
    LowerFixed("class act");
    assert "ass"[1] != "act"[1];
  }

  lemma ExampleWholeNoMatch()
    ensures !Matches("class act", "ass", true, false)
  {
    ClassActPieces();
    WholeInTwoPieces("class", "act", "ass");
  }

  lemma ExampleCase()
    ensures Matches("Shut up", "Shut", false, true)
    ensures !Matches("shut up", "Shut", false, true)
  {
    assert "Shut up"[0..4] == "Shut";
    assert OccursAt("Shut up", "Shut", 0);
    SubstringRule("Shut up", "Shut", true);
    SubstringRule("shut up", "Shut", true);
    forall i: nat
      ensures !OccursAt("shut up", "Shut", i)
    {
      if i + 4 <= 7 {
        assert "shut up"[i..i + 4][0] == "shut up"[i] != 'S';
      }
    }
  }
}
