/** The fragment of Python's `re` that the contact extractor uses: a pattern
    is a sequence of character classes, each repeated greedily between a
    minimum and an optional maximum number of times. `Backtrack` follows the
    order in which Python's backtracking matcher tries the repetition counts
    (longest first), so the span it reports is the one `re.search` reports;
    `Matches` is the language of a pattern, against which the matcher is
    proved sound and complete. */
module Regex {
  import opened Text

  datatype CharClass =
    | Lit(c: char)   // one literal character
    | Digit          // \d
    | Sep            // [\s-]
    | LocalChar      // [a-zA-Z0-9._%+-]
    | DomainChar     // [a-zA-Z0-9.-]
    | Letter         // [a-zA-Z]

  predicate InClass(k: CharClass, c: char) {
    match k
    case Lit(x) => c == x
    case Digit => IsDigit(c)
    case Sep => IsSpace(c) || c == '-'
    case LocalChar => IsLetter(c) || IsDigit(c) || c in "._%+-"
    case DomainChar => IsLetter(c) || IsDigit(c) || c == '.' || c == '-'
    case Letter => IsLetter(c)
  }

  predicate AllIn(k: CharClass, s: string) {
    forall i :: 0 <= i < |s| ==> InClass(k, s[i])
  }

  /** A class repeated between `min` and `max` times; `max == None` is an
      unbounded repetition (`+`, `{2,}`). */
  datatype Piece = Piece(cls: CharClass, min: nat, max: Option<nat>)

  type Pattern = seq<Piece>

  predicate CountAllowed(p: Piece, k: nat) {
    p.min <= k && (p.max.Some? ==> k <= p.max.value)
  }

  /** The strings a pattern denotes. */
  ghost predicate Matches(p: Pattern, s: string)
    decreases |p|
  {
    if p == [] then s == []
    else exists k :: 0 <= k <= |s| && CountAllowed(p[0], k) && AllIn(p[0].cls, s[..k]) && Matches(p[1..], s[k..])
  }

  /** Length of the longest run of class characters starting at `pos`. */
  function Run(k: CharClass, t: string, pos: nat): (n: nat)
    requires pos <= |t|
    ensures pos + n <= |t|
    ensures AllIn(k, t[pos..pos + n])
    ensures pos + n < |t| ==> !InClass(k, t[pos + n])
    decreases |t| - pos
  {
    if pos < |t| && InClass(k, t[pos]) then 1 + Run(k, t, pos + 1) else 0
  }

  /** The count a greedy repetition tries first. */
  function Greedy(p: Piece, t: string, pos: nat): (n: nat)
    requires pos <= |t|
    ensures pos + n <= |t|
  {
    var r := Run(p.cls, t, pos);
    if p.max.Some? && p.max.value < r then p.max.value else r
  }

  /** The end of the first match of `p` at `pos` in backtracking order;
      when `anchored`, only a match reaching the end of `t` is accepted
      (the pattern's trailing `$`). */
  function Backtrack(p: Pattern, t: string, pos: nat, anchored: bool): (r: Option<nat>)
    requires pos <= |t|
    ensures r.Some? ==> pos <= r.value <= |t|
    decreases |p|, 1, 0
  {
    if p == [] then
      if !anchored || pos == |t| then Some(pos) else None
    else
      TryCounts(p, t, pos, anchored, Greedy(p[0], t, pos))
  }

  /** Tries the counts k, k-1, ..., p[0].min for the first piece. */
  function TryCounts(p: Pattern, t: string, pos: nat, anchored: bool, k: nat): (r: Option<nat>)
    requires p != [] && pos + k <= |t|
    ensures r.Some? ==> pos <= r.value <= |t|
    decreases |p|, 0, k
  {
    if k < p[0].min then None
    else
      match Backtrack(p[1..], t, pos + k, anchored)
      case Some(e) => Some(e)
      case None => if k == 0 then None else TryCounts(p, t, pos, anchored, k - 1)
  }

  /** `re.match` of a pattern written between `^` and `$`. */
  predicate FullMatch(p: Pattern, s: string) {
    Backtrack(p, s, 0, true).Some?
  }

  datatype Span = Span(start: nat, end: nat)

  /** `re.search` from position `pos`: the first start at which the
      matcher succeeds, with the end it reports there. */
  function SearchFrom(p: Pattern, t: string, pos: nat): (r: Option<Span>)
    requires pos <= |t|
    ensures r.Some? ==> pos <= r.value.start <= r.value.end <= |t|
    decreases |t| - pos
  {
    match Backtrack(p, t, pos, false)
    case Some(e) => Some(Span(pos, e))
    case None => if pos == |t| then None else SearchFrom(p, t, pos + 1)
  }

  function Search(p: Pattern, t: string): (r: Option<Span>)
    ensures r.Some? ==> r.value.start <= r.value.end <= |t|
  {
    SearchFrom(p, t, 0)
  }

  lemma RunIsLongest(k: CharClass, t: string, pos: nat, n: nat)
    requires pos + n <= |t| && AllIn(k, t[pos..pos + n])
    ensures n <= Run(k, t, pos)
  {
  }

  /** A match of the first piece followed by a match of the rest. */
  lemma MatchesCons(p: Pattern, s: string, k: nat)
    requires p != [] && k <= |s| && CountAllowed(p[0], k)
    requires AllIn(p[0].cls, s[..k]) && Matches(p[1..], s[k..])
    ensures Matches(p, s)
  {
  }

  /** A greedy count of the first piece followed by a match of the rest
      is a match of the pattern. */
  lemma SoundStep(p: Pattern, t: string, pos: nat, k: nat, e: nat)
    requires p != [] && pos <= |t| && p[0].min <= k <= Greedy(p[0], t, pos)
    requires pos + k <= e <= |t| && Matches(p[1..], t[pos + k..e])
    ensures Matches(p, t[pos..e])
  {
    var s := t[pos..e];
    assert s[k..] == t[pos + k..e];
    var run := Run(p[0].cls, t, pos);
    assert s[..k] == t[pos..pos + run][..k];
    MatchesCons(p, s, k);
  }

  /** Whatever the matcher reports is a match of the pattern. */
  lemma {:induction false} BacktrackSound(p: Pattern, t: string, pos: nat, anchored: bool)
    requires pos <= |t|
    ensures var r := Backtrack(p, t, pos, anchored);
      r.Some? ==> Matches(p, t[pos..r.value]) && (anchored ==> r.value == |t|)
    decreases |p|, 1, 0
  {
    if p != [] {
      TryCountsSound(p, t, pos, anchored, Greedy(p[0], t, pos));
    }
  }

  lemma {:induction false} TryCountsSound(p: Pattern, t: string, pos: nat, anchored: bool, k: nat)
    requires p != [] && pos <= |t| && k <= Greedy(p[0], t, pos)
    ensures var r := TryCounts(p, t, pos, anchored, k);
      r.Some? ==> Matches(p, t[pos..r.value]) && (anchored ==> r.value == |t|)
    decreases |p|, 0, k + 1
  {
    if k >= p[0].min {
      var sub := Backtrack(p[1..], t, pos + k, anchored);
      if sub.Some? {
        TryCountsHit(p, t, pos, anchored, k, sub.value);
      } else if k > 0 {
        assert TryCounts(p, t, pos, anchored, k) == TryCounts(p, t, pos, anchored, k - 1);
        TryCountsSound(p, t, pos, anchored, k - 1);
      }
    }
  }

  /** The count `k` is the one that succeeds. */
  lemma {:induction false} TryCountsHit(p: Pattern, t: string, pos: nat, anchored: bool, k: nat, e: nat)
    requires p != [] && pos <= |t| && p[0].min <= k <= Greedy(p[0], t, pos)
    requires Backtrack(p[1..], t, pos + k, anchored) == Some(e)
    ensures TryCounts(p, t, pos, anchored, k) == Some(e)
    ensures Matches(p, t[pos..e]) && (anchored ==> e == |t|)
    decreases |p|, 0, 0
  {
    BacktrackSound(p[1..], t, pos + k, anchored);
    SoundStep(p, t, pos, k, e);
  }

  /** If some match of the pattern starts at `pos`, the matcher finds one. */
  lemma {:induction false} BacktrackComplete(p: Pattern, t: string, pos: nat, e: nat, anchored: bool)
    requires pos <= e <= |t| && Matches(p, t[pos..e]) && (anchored ==> e == |t|)
    ensures Backtrack(p, t, pos, anchored).Some?
    decreases |p|, 1, 0
  {
    if p != [] {
      var s := t[pos..e];
      var k :| 0 <= k <= |s| && CountAllowed(p[0], k) && AllIn(p[0].cls, s[..k]) && Matches(p[1..], s[k..]);
      assert s[..k] == t[pos..pos + k];
      assert s[k..] == t[pos + k..e];
      RunIsLongest(p[0].cls, t, pos, k);
      TryCountsReach(p, t, pos, e, anchored, k, Greedy(p[0], t, pos));
    }
  }

  lemma {:induction false} TryCountsReach(p: Pattern, t: string, pos: nat, e: nat, anchored: bool, k: nat, j: nat)
    requires p != [] && pos + k <= e <= |t| && k <= j && pos + j <= |t|
    requires CountAllowed(p[0], k) && Matches(p[1..], t[pos + k..e]) && (anchored ==> e == |t|)
    ensures TryCounts(p, t, pos, anchored, j).Some?
    decreases |p|, 0, j - k
  {
    if j == k {
      BacktrackComplete(p[1..], t, pos + k, e, anchored);
    } else if Backtrack(p[1..], t, pos + j, anchored).None? {
      TryCountsReach(p, t, pos, e, anchored, k, j - 1);
    }
  }

  /** `^p$` accepts exactly the strings of the pattern's language. */
  lemma FullMatchIff(p: Pattern, s: string)
    ensures FullMatch(p, s) <==> Matches(p, s)
  {
    BacktrackSound(p, s, 0, true);
    assert s[0..|s|] == s;
    if Matches(p, s) {
      BacktrackComplete(p, s, 0, |s|, true);
    }
  }

  /** A search reports a match, and no match starts earlier than it. */
  lemma {:induction false} SearchFromFound(p: Pattern, t: string, pos: nat)
    requires pos <= |t|
    ensures var r := SearchFrom(p, t, pos);
      r.Some? ==>
        && Matches(p, t[r.value.start..r.value.end])
        && forall i, e :: pos <= i < r.value.start && i <= e <= |t| ==> !Matches(p, t[i..e])
    ensures SearchFrom(p, t, pos).None? ==>
      forall i, e :: pos <= i <= e <= |t| ==> !Matches(p, t[i..e])
    decreases |t| - pos
  {
    match Backtrack(p, t, pos, false)
    case Some(e) =>
      BacktrackSound(p, t, pos, false);
    case None =>
      NoMatchAt(p, t, pos);
      if pos < |t| {
        SearchFromFound(p, t, pos + 1);
        var r := SearchFrom(p, t, pos + 1);
        assert SearchFrom(p, t, pos) == r;
        var bound := if r.Some? then r.value.start else |t| + 1;
        forall i, e | pos <= i < bound && i <= e <= |t| ensures !Matches(p, t[i..e]) {
          if i == pos {
            assert !Matches(p, t[pos..e]);
          }
        }
      }
  }

  /** When the matcher fails at `pos`, no match starts there. */
  lemma NoMatchAt(p: Pattern, t: string, pos: nat)
    requires pos <= |t| && Backtrack(p, t, pos, false).None?
    ensures forall e :: pos <= e <= |t| ==> !Matches(p, t[pos..e])
  {
    forall e | pos <= e <= |t| ensures !Matches(p, t[pos..e]) {
      if Matches(p, t[pos..e]) {
        BacktrackComplete(p, t, pos, e, false);
      }
    }
  }

  /** `re.search` finds the leftmost start of a match, or reports that no
      substring matches. */
  lemma SearchLeftmost(p: Pattern, t: string)
    ensures var r := Search(p, t);
      r.Some? ==>
        && Matches(p, t[r.value.start..r.value.end])
        && forall i, e :: 0 <= i < r.value.start && i <= e <= |t| ==> !Matches(p, t[i..e])
    ensures Search(p, t).None? ==>
      forall i, e :: 0 <= i <= e <= |t| ==> !Matches(p, t[i..e])
  {
    SearchFromFound(p, t, 0);
  }
}
