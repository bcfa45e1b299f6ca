/** `sanitize_filename` of business_search_complete.py: the search term with
    every character outside `[\w\s-]` removed, spaces turned into
    underscores, and the result lower-cased. */
module Sanitize {
  import opened Text

  /** The characters `re.sub(r'[^\w\s-]', '', term)` keeps. */
  predicate Kept(c: char) {
    IsWordChar(c) || IsSpace(c) || c == '-'
  }

  /** `re.sub(r'[^\w\s-]', '', s)`: the kept characters of `s`, in order. */
  function RemoveDisallowed(s: string): (r: string)
    ensures |r| <= |s|
    ensures forall i :: 0 <= i < |r| ==> Kept(r[i])
    ensures (forall i :: 0 <= i < |s| ==> Kept(s[i])) ==> r == s
  {
    if s == [] then []
    else (if Kept(s[0]) then [s[0]] else []) + RemoveDisallowed(s[1..])
  }

  /** `re.sub` works character by character: the kept characters of a
      concatenation are those of each part, in order, and a single
      character is kept exactly when it is allowed. */
  lemma {:induction false} RemoveDisallowedAppend(a: string, b: string)
    ensures RemoveDisallowed(a + b) == RemoveDisallowed(a) + RemoveDisallowed(b)
    decreases |a|
  {
    if a == [] {
      assert a + b == b;
    } else {
      assert (a + b)[0] == a[0];
      assert (a + b)[1..] == a[1..] + b;
      RemoveDisallowedAppend(a[1..], b);
    }
  }

  lemma RemoveDisallowedChar(c: char)
    ensures RemoveDisallowed([c]) == if Kept(c) then [c] else []
  {
    assert [c][1..] == [];
  }

  /** `s.replace(' ', '_')`. */
  function ReplaceSpaces(s: string): (r: string)
    ensures |r| == |s|
    ensures forall i :: 0 <= i < |s| ==> r[i] == (if s[i] == ' ' then '_' else s[i])
  {
    seq(|s|, i requires 0 <= i < |s| => if s[i] == ' ' then '_' else s[i])
  }

  function SanitizeFilename(term: string): string {
    Lower(ReplaceSpaces(RemoveDisallowed(term)))
  }

  /** Sanitising works character by character: the name of a
      concatenation is the concatenation of the names, and one character
      is dropped when it is disallowed, and otherwise turned from a space
      into `_` and lower-cased. */
  lemma SanitizeAppend(a: string, b: string)
    ensures SanitizeFilename(a + b) == SanitizeFilename(a) + SanitizeFilename(b)
  {
    RemoveDisallowedAppend(a, b);
    var x, y := RemoveDisallowed(a), RemoveDisallowed(b);
    ReplaceSpacesAppend(x, y);
    LowerAppend(ReplaceSpaces(x), ReplaceSpaces(y));
  }

  lemma ReplaceSpacesAppend(x: string, y: string)
    ensures ReplaceSpaces(x + y) == ReplaceSpaces(x) + ReplaceSpaces(y)
  {
    assert forall i :: 0 <= i < |x + y| ==> (x + y)[i] == if i < |x| then x[i] else y[i - |x|];
  }

  lemma LowerAppend(x: string, y: string)
    ensures Lower(x + y) == Lower(x) + Lower(y)
  {
    assert forall i :: 0 <= i < |x + y| ==> (x + y)[i] == if i < |x| then x[i] else y[i - |x|];
  }

  lemma SanitizeChar(c: char)
    ensures SanitizeFilename([c]) == if Kept(c) then [LowerChar(if c == ' ' then '_' else c)] else []
  {
    RemoveDisallowedChar(c);
  }

  /** What a sanitised name may contain: word characters, whitespace other
      than the space, and `-`; never a space and never an upper-case
      letter. */
  predicate SafeChar(c: char) {
    Kept(c) && c != ' ' && !IsUpper(c)
  }

  lemma SanitizedChars(term: string)
    ensures forall i :: 0 <= i < |SanitizeFilename(term)| ==> SafeChar(SanitizeFilename(term)[i])
  {
    var kept := RemoveDisallowed(term);
    var replaced := ReplaceSpaces(kept);
    forall i | 0 <= i < |replaced| ensures SafeChar(LowerChar(replaced[i])) {
      assert Kept(kept[i]);
    }
  }

  lemma SanitizeNoLonger(term: string)
    ensures |SanitizeFilename(term)| <= |term|
  {
  }

  /** Text made only of safe characters is its own sanitised name. */
  lemma SafeTextUnchanged(s: string)
    requires forall i :: 0 <= i < |s| ==> SafeChar(s[i])
    ensures SanitizeFilename(s) == s
  {
    assert RemoveDisallowed(s) == s;
    assert ReplaceSpaces(s) == s;
  }

  lemma SanitizeIdempotent(term: string)
    ensures SanitizeFilename(SanitizeFilename(term)) == SanitizeFilename(term)
  {
    SanitizedChars(term);
    SafeTextUnchanged(SanitizeFilename(term));
  }
}
