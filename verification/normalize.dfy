/**
 * Line-ending normalisation applied to both the local and the remote copy of a
 * bundle before they are compared (index.mjs lines 97-99 and 102-104):
 *   1. every carriage-return character is deleted (a global replace of any
 *      run of CR by nothing);
 *   2. every literal four-character text backslash, r, backslash, n is replaced,
 *      left to right, by the two-character text backslash, n
 *      (`.replace(/\\r\\n/g, '\\n')`).
 */
module Normalize {

  const CR: char := '\r'

  /** The escaped CRLF written out literally: backslash, 'r', backslash, 'n'. */
  const EscapedCrLf: string := "\\r\\n"

  /** What an escaped CRLF is rewritten to: backslash, 'n'. */
  const EscapedLf: string := "\\n"

  // ---------------------------------------------------------------------------
  // Step 1: deleting carriage returns
  // ---------------------------------------------------------------------------

  // `text.replace(/\r*/g, '')`: the empty matches of `\r*` replace nothing,
  // the non-empty ones are runs of CR, so every CR disappears and nothing else.
  function RemoveCR(s: string): (r: string)
    ensures CR !in r
    ensures |r| <= |s|
    ensures forall c :: c != CR ==> multiset(r)[c] == multiset(s)[c]
  {
    if s == [] then []
    else
      assert s == [s[0]] + s[1..];
      if s[0] == CR then RemoveCR(s[1..]) else [s[0]] + RemoveCR(s[1..])
  }

  /** Deleting carriage returns distributes over concatenation, so it keeps the
      order of the characters it does not delete. */
  lemma {:induction false} RemoveCRAppend(a: string, b: string)
    ensures RemoveCR(a + b) == RemoveCR(a) + RemoveCR(b)
  {
    if a == [] {
      assert a + b == b;
    } else {
      assert (a + b)[1..] == a[1..] + b;
      RemoveCRAppend(a[1..], b);
    }
  }

  /** A text is left alone by CR deletion exactly when it holds no CR. */
  lemma {:induction false} RemoveCRIdentity(s: string)
    ensures RemoveCR(s) == s <==> CR !in s
  {
    if s != [] {
      RemoveCRIdentity(s[1..]);
      assert s == [s[0]] + s[1..];
    }
  }

  /** CR deletion is idempotent. */
  lemma RemoveCRIdempotent(s: string)
    ensures RemoveCR(RemoveCR(s)) == RemoveCR(s)
  {
    RemoveCRIdentity(RemoveCR(s));
  }

  // ---------------------------------------------------------------------------
  // Step 2: collapsing escaped CRLFs
  // ---------------------------------------------------------------------------

  /** The literal escaped CRLF starts at position i of s. */
  predicate OccursAt(s: string, i: int) {
    0 <= i && i + 4 <= |s| &&
    s[i] == '\\' && s[i + 1] == 'r' && s[i + 2] == '\\' && s[i + 3] == 'n'
  }

  /** The pattern cannot overlap itself: no other occurrence starts within the
      three positions after an occurrence. Hence a left-to-right scan for
      non-overlapping matches finds every occurrence. */
  lemma NoSelfOverlap(s: string, i: int)
    requires OccursAt(s, i)
    ensures !OccursAt(s, i + 1) && !OccursAt(s, i + 2) && !OccursAt(s, i + 3)
  {
  }

  /** The number of positions at which the escaped CRLF occurs. */
  function Occurrences(s: string): nat
    decreases |s|
  {
    if s == [] then 0
    else (if OccursAt(s, 0) then 1 else 0) + Occurrences(s[1..])
  }

  /** An occurrence at the front hides no other occurrence in its first three characters. */
  lemma OccurrencesAfterMatch(s: string)
    requires OccursAt(s, 0)
    ensures Occurrences(s) == 1 + Occurrences(s[4..])
  {
    NoSelfOverlap(s, 0);
    assert !OccursAt(s[1..], 0);
    assert !OccursAt(s[2..], 0);
    assert !OccursAt(s[3..], 0);
    assert s[1..][1..] == s[2..];
    assert s[2..][1..] == s[3..];
    assert s[3..][1..] == s[4..];
    assert Occurrences(s) == 1 + Occurrences(s[1..]);
    assert Occurrences(s[1..]) == Occurrences(s[2..]);
    assert Occurrences(s[2..]) == Occurrences(s[3..]);
    assert Occurrences(s[3..]) == Occurrences(s[4..]);
  }

  /** `text.replace(/\\r\\n/g, '\\n')`: each occurrence of the escaped CRLF,
      found left to right, becomes the escaped LF. Every occurrence shortens the
      text by two, and every character of the result comes from the input. */
  function Collapse(s: string): (r: string)
    ensures |r| + 2 * Occurrences(s) == |s|
    ensures forall c :: c in r ==> c in s
    decreases |s|
  {
    if s == [] then []
    else if OccursAt(s, 0) then
      OccurrencesAfterMatch(s);
      assert EscapedLf[0] == s[0] && EscapedLf[1] == s[3];
      assert forall c :: c in s[4..] ==> c in s;
      EscapedLf + Collapse(s[4..])
    else
      assert forall c :: c in s[1..] ==> c in s;
      [s[0]] + Collapse(s[1..])
  }

  /** Position k is one Collapse deletes: the 'r' or the second backslash of an occurrence. */
  predicate Dropped(s: string, k: int) {
    OccursAt(s, k - 1) || OccursAt(s, k - 2)
  }

  /** Reference definition: the characters of s from position k on that are not dropped, in order. */
  function Kept(s: string, k: nat): string
    requires k <= |s|
    decreases |s| - k
  {
    if k == |s| then [] else (if Dropped(s, k) then [] else [s[k]]) + Kept(s, k + 1)
  }

  /** Reading Kept across an occurrence keeps its first and last characters only. */
  lemma KeptAtOccurrence(s: string, k: nat)
    requires OccursAt(s, k) && !OccursAt(s, k - 1) && !OccursAt(s, k - 2)
    ensures Kept(s, k) == EscapedLf + Kept(s, k + 4)
  {
    NoSelfOverlap(s, k);
    assert Dropped(s, k + 1) && Dropped(s, k + 2) && !Dropped(s, k + 3);
    assert Kept(s, k + 3) == [s[k + 3]] + Kept(s, k + 4);
    assert Kept(s, k + 1) == Kept(s, k + 3);
    assert Kept(s, k) == [s[k]] + Kept(s, k + 1);
  }

  lemma {:induction false} CollapseSuffixIsKept(s: string, k: nat)
    requires k <= |s|
    requires !OccursAt(s, k - 1) && !OccursAt(s, k - 2)
    ensures Collapse(s[k..]) == Kept(s, k)
    decreases |s| - k
  {
    var t := s[k..];
    if k < |s| {
      if OccursAt(t, 0) {
        assert OccursAt(s, k);
        NoSelfOverlap(s, k);
        assert t[4..] == s[k + 4..];
        CollapseSuffixIsKept(s, k + 4);
        assert Collapse(t) == EscapedLf + Collapse(t[4..]);
        KeptAtOccurrence(s, k);
      } else {
        assert !OccursAt(s, k);
        assert t[1..] == s[k + 1..];
        CollapseSuffixIsKept(s, k + 1);
      }
    }
  }

  /** Collapse changes nothing but deleting the two middle characters of every
      occurrence of the escaped CRLF. */
  lemma CollapseIsKept(s: string)
    ensures Collapse(s) == Kept(s, 0)
  {
    assert s[0..] == s;
    CollapseSuffixIsKept(s, 0);
  }

  /** A text is left alone by Collapse exactly when the escaped CRLF does not occur in it. */
  lemma CollapseIdentity(s: string)
    ensures Collapse(s) == s <==> Occurrences(s) == 0
  {
    if Occurrences(s) == 0 {
      CollapseIsKept(s);
      KeptWithoutOccurrences(s, 0);
    }
  }

  lemma {:induction false} NoOccurrencesEverywhere(s: string, i: int)
    requires Occurrences(s) == 0
    ensures !OccursAt(s, i)
    decreases |s|
  {
    if s != [] && i > 0 {
      assert OccursAt(s, i) ==> OccursAt(s[1..], i - 1);
      NoOccurrencesEverywhere(s[1..], i - 1);
    }
  }

  lemma {:induction false} KeptWithoutOccurrences(s: string, k: nat)
    requires k <= |s|
    requires Occurrences(s) == 0
    ensures Kept(s, k) == s[k..]
    decreases |s| - k
  {
    if k < |s| {
      NoOccurrencesEverywhere(s, k - 1);
      NoOccurrencesEverywhere(s, k - 2);
      KeptWithoutOccurrences(s, k + 1);
      assert s[k..] == [s[k]] + s[k + 1..];
    }
  }

  // ---------------------------------------------------------------------------
  // The whole normalisation
  // ---------------------------------------------------------------------------

  /** Both steps, in the order the script applies them. The result holds no CR
      and is never longer than the input. */
  function Normalize(s: string): (r: string)
    ensures CR !in r
    ensures |r| <= |s|
  {
    Collapse(RemoveCR(s))
  }

  /** Normalisation deletes the CRs and then the two middle characters of every
      escaped CRLF left in the CR-free text; nothing else changes. */
  lemma NormalizeIsKept(s: string)
    ensures Normalize(s) == Kept(RemoveCR(s), 0)
  {
    CollapseIsKept(RemoveCR(s));
  }

  /** A text is a fixed point of normalisation exactly when it has no CR and no
      literal escaped CRLF. */
  lemma NormalizeIdentity(s: string)
    ensures Normalize(s) == s <==> CR !in s && Occurrences(s) == 0
  {
    RemoveCRIdentity(s);
    if CR !in s {
      CollapseIdentity(s);
    }
  }

  /** Normalising a second time changes the text exactly when the first pass left
      an escaped CRLF behind. */
  lemma NormalizeTwice(s: string)
    ensures Normalize(Normalize(s)) == Normalize(s) <==> Occurrences(Normalize(s)) == 0
  {
    NormalizeIdentity(Normalize(s));
  }

  /** Normalisation is not idempotent: the literal text backslash r backslash r
      backslash n becomes backslash r backslash n, and a second pass turns that
      into backslash n. */
  lemma NormalizeNotIdempotent()
    ensures var s := "\\r\\r\\n"; Normalize(s) == EscapedCrLf && Normalize(Normalize(s)) == EscapedLf
  {
    var s := "\\r\\r\\n";
    RemoveCRIdentity(s);
    assert !OccursAt(s, 0);
    assert OccursAt(s[1..], 1);
    assert s[1..][1..] == "\\r\\n";
    assert OccursAt(s[1..][1..], 0);
    assert s[1..][1..][4..] == [];
    assert Collapse(s[1..]) == [s[1]] + Collapse(s[1..][1..]);
    RemoveCRIdentity(EscapedCrLf);
    assert OccursAt(EscapedCrLf, 0);
    assert EscapedCrLf[4..] == [];
  }
}
