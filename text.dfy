/**
 * The three string operations the blacklist matcher relies on, as Python
 * defines them for the characters this model covers:
 *  - `s.lower()`, restricted to ASCII letters;
 *  - `s.split(sep)` with an explicit one-character separator, which keeps
 *    empty tokens (two adjacent separators, or one at either end);
 *  - `w in s`, the contiguous-substring test.
 */
module Text {

  // ---------------------------------------------------------------------------
  // Lower-casing
  // ---------------------------------------------------------------------------

  predicate IsUpper(c: char) { 'A' <= c <= 'Z' }

  predicate IsLower(c: char) { 'a' <= c <= 'z' }

  function LowerChar(c: char): char
  {
    if IsUpper(c) then (c as int - 'A' as int + 'a' as int) as char else c
  }

  function UpperChar(c: char): char
  {
    if IsLower(c) then (c as int - 'a' as int + 'A' as int) as char else c
  }

  /** `s.lower()`: every ASCII capital replaced by its small letter. */
  function Lower(s: string): (r: string)
    ensures |r| == |s|
    ensures forall i :: 0 <= i < |s| ==> r[i] == LowerChar(s[i])
  {
    if s == [] then [] else [LowerChar(s[0])] + Lower(s[1..])
  }

  /** `b` is `a` with the letter case of some of its letters changed. */
  ghost predicate CaseVariant(a: string, b: string)
  {
    |a| == |b| && forall i :: 0 <= i < |a| ==> b[i] == a[i] || b[i] == LowerChar(a[i]) || b[i] == UpperChar(a[i])
  }

  lemma LowerUpperChar(c: char)
    ensures LowerChar(UpperChar(c)) == LowerChar(c)
    ensures LowerChar(LowerChar(c)) == LowerChar(c)
  {
  }

  /** Lower-casing forgets exactly the letter case. */
  lemma LowerCaseVariant(a: string, b: string)
    requires CaseVariant(a, b)
    ensures Lower(a) == Lower(b)
  {
    forall i | 0 <= i < |a|
      ensures Lower(a)[i] == Lower(b)[i]
    {
      LowerUpperChar(a[i]);
    }
  }

  /** Lower-casing a second time changes nothing. */
  lemma LowerIdempotent(s: string)
    ensures Lower(Lower(s)) == Lower(s)
  {
    forall i | 0 <= i < |s|
      ensures Lower(Lower(s))[i] == Lower(s)[i]
    {
      LowerUpperChar(s[i]);
    }
  }

  // ---------------------------------------------------------------------------
  // Splitting on a separator
  // ---------------------------------------------------------------------------

  /** Position of the first `c` in `s`, or `|s|` when there is none. */
  function IndexOf(s: string, c: char): (k: nat)
    ensures k <= |s|
    ensures k < |s| ==> s[k] == c
    ensures c !in s[..k]
  {
    if s == [] then 0
    else if s[0] == c then 0
    else
      var k := 1 + IndexOf(s[1..], c);
      assert s[..k] == [s[0]] + s[1..][..k - 1];
      k
  }

  /**
   * `s.split(sep)`: the pieces of `s` between separators, empty pieces
   * included; the empty string splits into one empty piece.
   */
  function Split(s: string, sep: char): (r: seq<string>)
    ensures |r| >= 1
    decreases |s|
  {
    var k := IndexOf(s, sep);
    if k == |s| then [s] else [s[..k]] + Split(s[k + 1..], sep)
  }

  /** `sep.join(ts)`. */
  function Join(ts: seq<string>, sep: char): string
  {
    if ts == [] then ""
    else if |ts| == 1 then ts[0]
    else ts[0] + [sep] + Join(ts[1..], sep)
  }

  ghost predicate FreeOf(ts: seq<string>, sep: char)
  {
    forall t :: t in ts ==> sep !in t
  }

  /** `s[i..j]` is one of the pieces of `s.split(sep)`. */
  ghost predicate IsToken(s: string, sep: char, i: nat, j: nat)
  {
    && i <= j <= |s|
    && (i == 0 || s[i - 1] == sep)
    && (j == |s| || s[j] == sep)
    && sep !in s[i..j]
  }

  /** No piece of `s.split(sep)` holds the separator. */
  lemma {:induction false} SplitFreeOf(s: string, sep: char)
    ensures FreeOf(Split(s, sep), sep)
    decreases |s|
  {
    var k := IndexOf(s, sep);
    if k < |s| {
      SplitFreeOf(s[k + 1..], sep);
    }
  }

  /** Joining the pieces with the separator gives the string back. */
  lemma {:induction false} JoinSplit(s: string, sep: char)
    ensures Join(Split(s, sep), sep) == s
    decreases |s|
  {
    var k := IndexOf(s, sep);
    if k == |s| {
      assert s[..k] == s;
    } else {
      var rest := s[k + 1..];
      var parts := Split(rest, sep);
      assert Split(s, sep) == [s[..k]] + parts;
      JoinCons(s[..k], parts, sep);
      JoinSplit(rest, sep);
      assert s == s[..k] + [sep] + rest;
    }
  }

  lemma JoinCons(t: string, ts: seq<string>, sep: char)
    requires |ts| >= 1
    ensures Join([t] + ts, sep) == t + [sep] + Join(ts, sep)
  {
    assert ([t] + ts)[1..] == ts;
  }

  /** Conversely, separator-free pieces are recovered from their join. */
  lemma {:induction false} SplitJoin(ts: seq<string>, sep: char)
    requires |ts| >= 1 && FreeOf(ts, sep)
    ensures Split(Join(ts, sep), sep) == ts
  {
    if |ts| == 1 {
      IndexOfAbsent(ts[0], sep);
    } else {
      var s := Join(ts, sep);
      var t := ts[0];
      IndexOfAfter(t, sep, Join(ts[1..], sep));
      assert s[..|t|] == t;
      assert s[|t| + 1..] == Join(ts[1..], sep);
      SplitJoin(ts[1..], sep);
    }
  }

  lemma IndexOfAbsent(t: string, sep: char)
    requires sep !in t
    ensures IndexOf(t, sep) == |t|
  {
    var k := IndexOf(t, sep);
    assert forall m :: 0 <= m < |t| ==> t[m] in t;
  }

  lemma IndexOfAfter(t: string, sep: char, u: string)
    requires sep !in t
    ensures IndexOf(t + [sep] + u, sep) == |t|
  {
    var s := t + [sep] + u;
    var k := IndexOf(s, sep);
    assert forall m :: 0 <= m < |t| ==> s[m] == t[m] && t[m] in t;
    assert forall m :: |t| < m <= |s| ==> s[|t|] in s[..m];
  }

  /**
   * Membership in `s.split(sep)` means being the text between two
   * consecutive separators (or an end of `s`).
   */
  lemma SplitTokens(s: string, sep: char, w: string)
    ensures w in Split(s, sep) <==> exists i: nat, j: nat :: IsToken(s, sep, i, j) && s[i..j] == w
  {
    if w in Split(s, sep) {
      var i, j := SplitTokenPosition(s, sep, w);
    }
    if i: nat, j: nat :| IsToken(s, sep, i, j) && s[i..j] == w {
      TokenInSplit(s, sep, i, j);
    }
  }

  /** Every piece of `s.split(sep)` sits between separators. */
  lemma SplitTokenPosition(s: string, sep: char, w: string) returns (i: nat, j: nat)
    requires w in Split(s, sep)
    ensures IsToken(s, sep, i, j) && s[i..j] == w
  {
    var parts := Split(s, sep);
    var n :| 0 <= n < |parts| && parts[n] == w;
    i, j := SplitPiecePosition(s, sep, n);
  }

  /** One step of `s.split(sep)`: the text before the first separator, then the pieces of the rest. */
  lemma SplitUnfold(s: string, sep: char)
    ensures IndexOf(s, sep) == |s| ==> Split(s, sep) == [s]
    ensures IndexOf(s, sep) < |s| ==> Split(s, sep) == [s[..IndexOf(s, sep)]] + Split(s[IndexOf(s, sep) + 1..], sep)
  {
  }

  /** The piece at index `n` of `s.split(sep)` sits between separators. */
  lemma {:induction false} SplitPiecePosition(s: string, sep: char, n: nat) returns (i: nat, j: nat)
    requires n < |Split(s, sep)|
    ensures IsToken(s, sep, i, j) && s[i..j] == Split(s, sep)[n]
    decreases |s|
  {
    var k := SplitPiece(s, sep, n);
    if n == 0 {
      i, j := 0, k;
    } else {
      var rest := s[k + 1..];
      var i', j' := SplitPiecePosition(rest, sep, n - 1);
      i, j := ShiftPiece(s, sep, k, i', j', Split(s, sep)[n]);
    }
  }

  lemma SplitPiece(s: string, sep: char, n: nat) returns (k: nat)
    requires n < |Split(s, sep)|
    ensures k <= |s| && (k == |s| || s[k] == sep) && sep !in s[..k]
    ensures n == 0 ==> Split(s, sep)[0] == s[..k]
    ensures n > 0 ==> k < |s| && n - 1 < |Split(s[k + 1..], sep)| && Split(s, sep)[n] == Split(s[k + 1..], sep)[n - 1]
  {
    k := IndexOf(s, sep);
    SplitUnfold(s, sep);
    if k == |s| {
      assert s[..k] == s;
    }
  }

  /** A piece of the text after the separator at `k` is a piece of `s`. */
  lemma ShiftPiece(s: string, sep: char, k: nat, i': nat, j': nat, piece: string) returns (i: nat, j: nat)
    requires k < |s| && s[k] == sep
    requires IsToken(s[k + 1..], sep, i', j') && s[k + 1..][i'..j'] == piece
    ensures IsToken(s, sep, i, j) && s[i..j] == piece
  {
    var rest := s[k + 1..];
    i, j := k + 1 + i', k + 1 + j';
    assert s[i..j] == rest[i'..j'];
    assert i - 1 == k || s[i - 1] == rest[i' - 1];
    assert j == |s| || s[j] == rest[j'];
  }

  /** Every text between separators is a piece of `s.split(sep)`. */
  lemma TokenInSplit(s: string, sep: char, i: nat, j: nat)
    requires IsToken(s, sep, i, j)
    ensures s[i..j] in Split(s, sep)
  {
    var n := TokenIndex(s, sep, i, j);
  }

  /** The index, in `s.split(sep)`, of the text between two separators. */
  lemma {:induction false} TokenIndex(s: string, sep: char, i: nat, j: nat) returns (n: nat)
    requires IsToken(s, sep, i, j)
    ensures n < |Split(s, sep)| && Split(s, sep)[n] == s[i..j]
    decreases |s|
  {
    if i == 0 {
      FirstPiece(s, sep, j);
      n := 0;
    } else {
      var k, rest, i', j' := UnshiftToken(s, sep, i, j);
      var n' := TokenIndex(rest, sep, i', j');
      SplitTail(s, sep, k, n', s[i..j]);
      n := n' + 1;
    }
  }

  lemma FirstPiece(s: string, sep: char, j: nat)
    requires IsToken(s, sep, 0, j)
    ensures Split(s, sep)[0] == s[0..j]
  {
    var k := IndexOf(s, sep);
    FirstToken(s, sep, j);
    SplitUnfold(s, sep);
    if k == |s| {
      assert s[..k] == s;
    }
  }

  lemma SplitTail(s: string, sep: char, k: nat, n: nat, piece: string)
    requires k == IndexOf(s, sep) && k < |s|
    requires n < |Split(s[k + 1..], sep)| && Split(s[k + 1..], sep)[n] == piece
    ensures n + 1 < |Split(s, sep)| && Split(s, sep)[n + 1] == piece
  {
    var tail := Split(s[k + 1..], sep);
    SplitUnfold(s, sep);
    assert Split(s, sep) == [s[..k]] + tail;
    assert ([s[..k]] + tail)[n + 1] == tail[n];
  }

  /** A piece of `s` after its first separator (at `k`) is a piece of the rest. */
  lemma UnshiftToken(s: string, sep: char, i: nat, j: nat) returns (k: nat, rest: string, i': nat, j': nat)
    requires IsToken(s, sep, i, j) && i > 0
    ensures k == IndexOf(s, sep) && k < |s| && rest == s[k + 1..] && |rest| < |s|
    ensures IsToken(rest, sep, i', j') && rest[i'..j'] == s[i..j]
  {
    k := IndexOf(s, sep);
    assert forall m :: 0 <= m < k ==> s[m] in s[..k];
    assert k + 1 <= i;
    rest := s[k + 1..];
    i', j' := i - k - 1, j - k - 1;
    assert forall m :: i <= m < j ==> s[m] == rest[m - k - 1];
    assert s[i..j] == rest[i'..j'];
  }

  lemma FirstToken(s: string, sep: char, j: nat)
    requires IsToken(s, sep, 0, j)
    ensures j == IndexOf(s, sep)
  {
    var k := IndexOf(s, sep);
    assert forall m :: 0 <= m < k ==> s[m] in s[..k];
    assert forall m :: 0 <= m < j ==> s[m] in s[0..j];
  }

  // ---------------------------------------------------------------------------
  // Substring test
  // ---------------------------------------------------------------------------

  /** `w` sits in `s` starting at position `i`. */
  ghost predicate OccursAt(s: string, w: string, i: nat)
  {
    i + |w| <= |s| && s[i..i + |w|] == w
  }

  /** `w in s`. The empty string is in every string. */
  predicate Contains(s: string, w: string)
    decreases |s|
  {
    w <= s || (s != [] && Contains(s[1..], w))
  }

  /** `w in s` holds exactly when `w` occurs in `s` at some position. */
  lemma ContainsOccurs(s: string, w: string)
    ensures Contains(s, w) <==> exists i: nat :: OccursAt(s, w, i)
  {
    if Contains(s, w) {
      var i := ContainsPosition(s, w);
    }
    if i: nat :| OccursAt(s, w, i) {
      OccursContains(s, w, i);
    }
  }

  lemma {:induction false} ContainsPosition(s: string, w: string) returns (i: nat)
    requires Contains(s, w)
    ensures OccursAt(s, w, i)
    decreases |s|
  {
    if w <= s {
      i := 0;
      assert s[..|w|] == w;
    } else {
      var i' := ContainsPosition(s[1..], w);
      i := i' + 1;
      assert s[1..][i'..i' + |w|] == s[i..i + |w|];
    }
  }

  lemma {:induction false} OccursContains(s: string, w: string, i: nat)
    requires OccursAt(s, w, i)
    ensures Contains(s, w)
    decreases i
  {
    if i == 0 {
      assert w <= s;
    } else {
      assert s[1..][i - 1..i - 1 + |w|] == s[i..i + |w|];
      OccursContains(s[1..], w, i - 1);
    }
  }
}
