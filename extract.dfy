/** The contact extractor: `extract_email` and `extract_phone` of
    business_search_complete.py (and the identical `extract_email` of
    business_search.py), and the email validation of the two mergers. */
module Extract {
  import opened Text
  import opened Regex

  function Once(k: CharClass): Piece { Piece(k, 1, Some(1)) }
  function Times(k: CharClass, n: nat): Piece { Piece(k, n, Some(n)) }
  function Optional(k: CharClass): Piece { Piece(k, 0, Some(1)) }

  /** [a-zA-Z0-9._%+-]+@[a-zA-Z0-9.-]+\.[a-zA-Z]{2,} */
  const EMAIL_PATTERN: Pattern :=
    [Piece(LocalChar, 1, None), Once(Lit('@')), Piece(DomainChar, 1, None), Once(Lit('.')), Piece(Letter, 2, None)]

  /** \+972[\s-]?\d[\s-]?\d{3}[\s-]?\d{4} */
  const ISRAELI_INTERNATIONAL: Pattern :=
    [Once(Lit('+')), Once(Lit('9')), Once(Lit('7')), Once(Lit('2')), Optional(Sep), Once(Digit),
     Optional(Sep), Times(Digit, 3), Optional(Sep), Times(Digit, 4)]

  /** 0\d[\s-]?\d{3}[\s-]?\d{4} */
  const ISRAELI_LOCAL: Pattern :=
    [Once(Lit('0')), Once(Digit), Optional(Sep), Times(Digit, 3), Optional(Sep), Times(Digit, 4)]

  /** \(\d{3}\)[\s-]?\d{3}[\s-]?\d{4} */
  const AREA_CODE: Pattern :=
    [Once(Lit('(')), Times(Digit, 3), Once(Lit(')')), Optional(Sep), Times(Digit, 3), Optional(Sep), Times(Digit, 4)]

  /** \d{3}[\s-]?\d{3}[\s-]?\d{4} */
  const PLAIN: Pattern :=
    [Times(Digit, 3), Optional(Sep), Times(Digit, 3), Optional(Sep), Times(Digit, 4)]

  /** \+\d{1,3}[\s-]?\d{1,4}[\s-]?\d{3,4}[\s-]?\d{4} */
  const INTERNATIONAL: Pattern :=
    [Once(Lit('+')), Piece(Digit, 1, Some(3)), Optional(Sep), Piece(Digit, 1, Some(4)), Optional(Sep),
     Piece(Digit, 3, Some(4)), Optional(Sep), Times(Digit, 4)]

  /** The phone patterns in the order `extract_phone` tries them. */
  const PHONE_PATTERNS: seq<Pattern> := [ISRAELI_INTERNATIONAL, ISRAELI_LOCAL, AREA_CODE, PLAIN, INTERNATIONAL]

  /** The mergers' check `email_regex.match(email)`, the pattern being
      anchored with `^` and `$`. */
  predicate IsValidEmail(s: string) {
    FullMatch(EMAIL_PATTERN, s)
  }

  /** Index of the first `c` in `s`, or |s| when there is none. */
  function IndexOf(s: string, c: char): (r: nat)
    ensures r <= |s|
    ensures r < |s| ==> s[r] == c
    ensures forall i :: 0 <= i < r ==> s[i] != c
  {
    if s == [] || s[0] == c then 0 else 1 + IndexOf(s[1..], c)
  }

  /** Index of the last `c` in `s`. */
  function LastIndexOf(s: string, c: char): (r: Option<nat>)
    ensures r.Some? ==> r.value < |s| && s[r.value] == c && forall i :: r.value < i < |s| ==> s[i] != c
    ensures r.None? ==> c !in s
  {
    if s == [] then None
    else if s[|s| - 1] == c then Some(|s| - 1)
    else LastIndexOf(s[..|s| - 1], c)
  }

  /** The email pattern read as plain conditions: exactly one `@`; before
      it a non-empty run of [A-Za-z0-9._%+-]; after it a last `.`, preceded
      by a non-empty run of [A-Za-z0-9.-] and followed by at least two
      ASCII letters. */
  predicate EmailShape(s: string) {
    multiset(s)['@'] == 1 && var at := IndexOf(s, '@');
    at < |s| && LocalShape(s[..at]) && DomainShape(s[at + 1..])
  }

  predicate LocalShape(x: string) {
    x != [] && AllIn(LocalChar, x)
  }

  predicate DomainShape(d: string) {
    var dot := LastIndexOf(d, '.');
    && dot.Some?
    && 0 < dot.value
    && AllIn(DomainChar, d[..dot.value])
    && |d| - dot.value - 1 >= 2
    && AllIn(Letter, d[dot.value + 1..])
  }

  /** The tail patterns of EMAIL_PATTERN, one piece shorter each. */
  const TLD_PART: Pattern := [Piece(Letter, 2, None)]
  const DOT_PART: Pattern := [Once(Lit('.'))] + TLD_PART
  const DOMAIN_PART: Pattern := [Piece(DomainChar, 1, None)] + DOT_PART
  const AT_PART: Pattern := [Once(Lit('@'))] + DOMAIN_PART

  lemma EmailPatternTails()
    ensures EMAIL_PATTERN == [Piece(LocalChar, 1, None)] + AT_PART
    ensures EMAIL_PATTERN[1..] == AT_PART && AT_PART[1..] == DOMAIN_PART
    ensures DOMAIN_PART[1..] == DOT_PART && DOT_PART[1..] == TLD_PART && TLD_PART[1..] == []
  {
  }

  lemma TldMatches(tld: string)
    requires |tld| >= 2 && AllIn(Letter, tld)
    ensures Matches(TLD_PART, tld)
  {
    EmailPatternTails();
    assert tld[..|tld|] == tld && tld[|tld|..] == [];
    MatchesCons(TLD_PART, tld, |tld|);
  }

  lemma DotMatches(x: string)
    requires |x| >= 1 && x[0] == '.' && Matches(TLD_PART, x[1..])
    ensures Matches(DOT_PART, x)
  {
    EmailPatternTails();
    MatchesCons(DOT_PART, x, 1);
  }

  lemma DomainMatches(x: string, dot: nat)
    requires 0 < dot <= |x| && AllIn(DomainChar, x[..dot]) && Matches(DOT_PART, x[dot..])
    ensures Matches(DOMAIN_PART, x)
  {
    EmailPatternTails();
    MatchesCons(DOMAIN_PART, x, dot);
  }

  lemma AtMatches(x: string)
    requires |x| >= 1 && x[0] == '@' && Matches(DOMAIN_PART, x[1..])
    ensures Matches(AT_PART, x)
  {
    EmailPatternTails();
    MatchesCons(AT_PART, x, 1);
  }

  lemma LocalMatches(x: string, at: nat)
    requires 0 < at <= |x| && AllIn(LocalChar, x[..at]) && Matches(AT_PART, x[at..])
    ensures Matches(EMAIL_PATTERN, x)
  {
    EmailPatternTails();
    MatchesCons(EMAIL_PATTERN, x, at);
  }

  lemma ShapeMatches(s: string)
    requires EmailShape(s)
    ensures Matches(EMAIL_PATTERN, s)
  {
    var at := IndexOf(s, '@');
    var domain := s[at + 1..];
    var dot := LastIndexOf(domain, '.').value;
    var tld := domain[dot + 1..];
    TldMatches(tld);
    assert domain[dot..][1..] == tld;
    DotMatches(domain[dot..]);
    DomainMatches(domain, dot);
    assert s[at..][1..] == domain;
    AtMatches(s[at..]);
    LocalMatches(s, at);
  }

  lemma LocalSplit(x: string) returns (at: nat)
    requires Matches(EMAIL_PATTERN, x)
    ensures 0 < at <= |x| && AllIn(LocalChar, x[..at]) && Matches(AT_PART, x[at..])
  {
    EmailPatternTails();
    at :| 0 <= at <= |x| && CountAllowed(EMAIL_PATTERN[0], at) && AllIn(LocalChar, x[..at]) && Matches(AT_PART, x[at..]);
  }

  lemma AtSplit(x: string)
    requires Matches(AT_PART, x)
    ensures |x| >= 1 && x[0] == '@' && Matches(DOMAIN_PART, x[1..])
  {
    EmailPatternTails();
    var one :| 0 <= one <= |x| && CountAllowed(AT_PART[0], one) && AllIn(Lit('@'), x[..one]) && Matches(DOMAIN_PART, x[one..]);
    assert one == 1 && x[..one][0] == x[0];
  }

  lemma DomainSplit(x: string) returns (dot: nat)
    requires Matches(DOMAIN_PART, x)
    ensures 0 < dot <= |x| && AllIn(DomainChar, x[..dot]) && Matches(DOT_PART, x[dot..])
  {
    EmailPatternTails();
    dot :| 0 <= dot <= |x| && CountAllowed(DOMAIN_PART[0], dot) && AllIn(DomainChar, x[..dot]) && Matches(DOT_PART, x[dot..]);
  }

  lemma DotSplit(x: string)
    requires Matches(DOT_PART, x)
    ensures |x| >= 1 && x[0] == '.' && Matches(TLD_PART, x[1..])
  {
    EmailPatternTails();
    var one :| 0 <= one <= |x| && CountAllowed(DOT_PART[0], one) && AllIn(Lit('.'), x[..one]) && Matches(TLD_PART, x[one..]);
    assert one == 1 && x[..one][0] == x[0];
  }

  lemma TldSplit(x: string)
    requires Matches(TLD_PART, x)
    ensures |x| >= 2 && AllIn(Letter, x)
  {
    EmailPatternTails();
    var n :| 0 <= n <= |x| && CountAllowed(TLD_PART[0], n) && AllIn(Letter, x[..n]) && Matches(TLD_PART[1..], x[n..]);
    assert n == |x| && x[..n] == x;
  }

  lemma DomainShapeFromParts(d: string, dot: nat)
    requires 0 < dot && dot + 3 <= |d| && d[dot] == '.'
    requires AllIn(DomainChar, d[..dot]) && AllIn(Letter, d[dot + 1..])
    ensures DomainShape(d)
  {
    assert forall i :: dot < i < |d| ==> d[i] == d[dot + 1..][i - dot - 1];
    assert LastIndexOf(d, '.') == Some(dot);
  }

  lemma SingleAt(s: string, at: nat)
    requires at < |s| && s[at] == '@' && AllIn(LocalChar, s[..at]) && '@' !in s[at + 1..]
    ensures multiset(s)['@'] == 1 && IndexOf(s, '@') == at
  {
    var local, domain := s[..at], s[at + 1..];
    assert '@' !in local by {
      forall i | 0 <= i < |local| ensures local[i] != '@' {
        assert InClass(LocalChar, local[i]);
      }
    }
    assert multiset(s)['@'] == 1 by {
      assert s == local + ['@'] + domain;
      assert multiset(s) == multiset(local) + multiset(['@']) + multiset(domain);
    }
    assert IndexOf(s, '@') == at by {
      assert forall i :: 0 <= i < at ==> s[i] == local[i];
    }
  }

  /** EmailShape from the pieces a match of the email pattern consists of. */
  lemma ShapeFromParts(s: string, at: nat, dot: nat)
    requires 0 < at < |s| && s[at] == '@' && AllIn(LocalChar, s[..at])
    requires DomainShape(s[at + 1..]) && dot < |s[at + 1..]| && s[at + 1..][dot] == '.'
    requires AllIn(DomainChar, s[at + 1..][..dot]) && AllIn(Letter, s[at + 1..][dot + 1..])
    ensures EmailShape(s)
  {
    var d := s[at + 1..];
    assert d == d[..dot] + ['.'] + d[dot + 1..];
    assert '@' !in d;
    SingleAt(s, at);
  }

  lemma MatchesShape(s: string)
    requires Matches(EMAIL_PATTERN, s)
    ensures EmailShape(s)
  {
    var at := LocalSplit(s);
    AtSplit(s[at..]);
    var domain := s[at..][1..];
    var dot := DomainSplit(domain);
    DotSplit(domain[dot..]);
    TldSplit(domain[dot..][1..]);
    assert domain[dot..][1..] == domain[dot + 1..];
    DomainShapeFromParts(domain, dot);
    assert domain == s[at + 1..];
    ShapeFromParts(s, at, dot);
  }

  /** The anchored email regex accepts exactly the strings of EmailShape. */
  lemma ValidEmailShape(s: string)
    ensures IsValidEmail(s) <==> EmailShape(s)
  {
    FullMatchIff(EMAIL_PATTERN, s);
    if IsValidEmail(s) { MatchesShape(s); }
    if EmailShape(s) { ShapeMatches(s); }
  }

  /** `t` holds `s` at position `i`. */
  predicate OccursAt(t: string, s: string, i: nat) {
    i + |s| <= |t| && t[i..i + |s|] == s
  }

  /** `extract_email`: None for missing or empty text, otherwise the match
      `re.search` reports for the email pattern, if any. */
  function ExtractEmail(text: Option<string>): (r: Option<string>)
    ensures text.None? || text.value == [] ==> r.None?
  {
    if text.None? || text.value == [] then None
    else
      match Search(EMAIL_PATTERN, text.value)
      case None => None
      case Some(sp) => Some(text.value[sp.start..sp.end])
  }

  /** The anchored regex rejects every piece of `t` starting before
      `start` when the pattern's language holds none of them. */
  lemma NoValidEmailBefore(t: string, start: nat)
    requires forall i, e :: 0 <= i < start && i <= e <= |t| ==> !Matches(EMAIL_PATTERN, t[i..e])
    ensures forall i, e :: 0 <= i < start && i <= e <= |t| ==> !IsValidEmail(t[i..e])
  {
    forall i, e | 0 <= i < start && i <= e <= |t| ensures !IsValidEmail(t[i..e]) {
      FullMatchIff(EMAIL_PATTERN, t[i..e]);
    }
  }

  /** An extracted email is a piece of the text that the mergers' anchored
      regex accepts, and no piece of the text starting earlier is one; when
      nothing is extracted from a non-empty text, no piece of it is one. */
  lemma ExtractEmailLeftmost(text: Option<string>)
    ensures text.None? || text.value == [] ==> ExtractEmail(text).None?
    ensures ExtractEmail(text).Some? ==>
      var t, e := text.value, ExtractEmail(text).value;
      exists i: nat :: OccursAt(t, e, i) && IsValidEmail(e) &&
        forall j, k :: 0 <= j < i && j <= k <= |t| ==> !IsValidEmail(t[j..k])
    ensures text.Some? && text.value != [] && ExtractEmail(text).None? ==>
      forall j, k :: 0 <= j <= k <= |text.value| ==> !IsValidEmail(text.value[j..k])
  {
    if text.Some? && text.value != [] {
      if ExtractEmail(text).Some? {
        EmailFound(text.value);
      } else {
        SearchLeftmost(EMAIL_PATTERN, text.value);
        NoValidEmailBefore(text.value, |text.value| + 1);
      }
    }
  }

  lemma EmailFound(t: string)
    requires t != [] && ExtractEmail(Some(t)).Some?
    ensures var e := ExtractEmail(Some(t)).value;
      exists i: nat :: OccursAt(t, e, i) && IsValidEmail(e) &&
        forall j, k :: 0 <= j < i && j <= k <= |t| ==> !IsValidEmail(t[j..k])
  {
    var sp := Search(EMAIL_PATTERN, t).value;
    var e := t[sp.start..sp.end];
    assert ExtractEmail(Some(t)) == Some(e);
    assert IsValidEmail(e) by {
      SearchLeftmost(EMAIL_PATTERN, t);
      FullMatchIff(EMAIL_PATTERN, e);
    }
    assert forall j, k :: 0 <= j < sp.start && j <= k <= |t| ==> !IsValidEmail(t[j..k]) by {
      SearchLeftmost(EMAIL_PATTERN, t);
      NoValidEmailBefore(t, sp.start);
    }
    assert OccursAt(t, e, sp.start);
  }

  /** An extracted email passes the mergers' test unchanged: stripping
      leaves it as it is, and the anchored regex accepts it. */
  lemma ExtractedEmailPassesMerge(text: Option<string>)
    requires ExtractEmail(text).Some?
    ensures var e := ExtractEmail(text).value;
      e != [] && Strip(e) == e && IsValidEmail(Strip(e))
  {
    ExtractEmailLeftmost(text);
    var e := ExtractEmail(text).value;
    ValidEmailEdges(e);
    StripUnchanged(e);
  }

  /** A valid email neither starts nor ends with whitespace. */
  lemma ValidEmailEdges(e: string)
    requires IsValidEmail(e)
    ensures e != [] && !IsSpace(e[0]) && !IsSpace(e[|e| - 1])
  {
    ValidEmailShape(e);
    var at := IndexOf(e, '@');
    assert e[..at][0] == e[0];
    assert InClass(LocalChar, e[..at][0]);
    var d := e[at + 1..];
    var dot := LastIndexOf(d, '.').value;
    assert d[dot + 1..][|d| - dot - 2] == e[|e| - 1];
    assert InClass(Letter, d[dot + 1..][|d| - dot - 2]);
  }

  /** The placeholder the search driver writes for a missing email is never
      a valid email. */
  lemma SentinelIsNotEmail()
    ensures !IsValidEmail("No email found")
  {
    NoAtNoEmail("No email found");
  }

  lemma NoAtNoEmail(s: string)
    requires '@' !in s
    ensures !IsValidEmail(s)
  {
    ValidEmailShape(s);
  }

  /** The loop of `extract_phone`: the first pattern, in list order, that
      `re.search` finds anywhere in the text, and the span it finds. */
  function FirstPatternMatch(pats: seq<Pattern>, t: string): (r: Option<(nat, Span)>)
    ensures r.Some? ==> r.value.0 < |pats| && r.value.1.start <= r.value.1.end <= |t|
  {
    if pats == [] then None
    else
      match Search(pats[0], t)
      case Some(sp) => Some((0, sp))
      case None =>
        match FirstPatternMatch(pats[1..], t)
        case None => None
        case Some(found) => Some((found.0 + 1, found.1))
  }

  /** A pattern is used only when every earlier one matches nowhere in the
      text; the span reported is its leftmost match. */
  lemma {:induction false} FirstPatternMatchSpec(pats: seq<Pattern>, t: string)
    ensures var r := FirstPatternMatch(pats, t);
      r.Some? ==>
        var k, sp := r.value.0, r.value.1;
        && Matches(pats[k], t[sp.start..sp.end])
        && (forall i, e :: 0 <= i < sp.start && i <= e <= |t| ==> !Matches(pats[k], t[i..e]))
        && (forall j, i, e :: 0 <= j < k && 0 <= i <= e <= |t| ==> !Matches(pats[j], t[i..e]))
    ensures FirstPatternMatch(pats, t).None? ==>
      forall j, i, e :: 0 <= j < |pats| && 0 <= i <= e <= |t| ==> !Matches(pats[j], t[i..e])
  {
    if pats != [] {
      SearchLeftmost(pats[0], t);
      if Search(pats[0], t).None? {
        var rest := pats[1..];
        FirstPatternMatchSpec(rest, t);
        forall j | 1 <= j < |pats| ensures pats[j] == rest[j - 1] { }
        match FirstPatternMatch(rest, t)
        case None =>
          assert FirstPatternMatch(pats, t).None?;
        case Some(found) =>
          assert FirstPatternMatch(pats, t) == Some((found.0 + 1, found.1));
          assert pats[found.0 + 1] == rest[found.0];
      }
    }
  }

  /** The text of the match that FirstPatternMatch reports. */
  function FirstMatchedText(pats: seq<Pattern>, t: string): Option<string> {
    match FirstPatternMatch(pats, t)
    case None => None
    case Some(found) => Some(t[found.1.start..found.1.end])
  }

  /** What FirstMatchedText reports occurs in the text, matches the first
      pattern that matches anywhere, and is that pattern's leftmost match;
      when it reports nothing, no pattern matches anywhere. */
  lemma FirstMatchedTextSpec(pats: seq<Pattern>, t: string)
    ensures FirstMatchedText(pats, t).Some? ==>
      var s := FirstMatchedText(pats, t).value;
      exists k: nat, i: nat :: k < |pats| && OccursAt(t, s, i) && Matches(pats[k], s)
        && (forall j, a, b :: 0 <= j < k && 0 <= a <= b <= |t| ==> !Matches(pats[j], t[a..b]))
        && (forall a, b :: 0 <= a < i && a <= b <= |t| ==> !Matches(pats[k], t[a..b]))
    ensures FirstMatchedText(pats, t).None? ==>
      forall j, a, b :: 0 <= j < |pats| && 0 <= a <= b <= |t| ==> !Matches(pats[j], t[a..b])
  {
    FirstPatternMatchSpec(pats, t);
    if FirstPatternMatch(pats, t).Some? {
      var found := FirstPatternMatch(pats, t).value;
      assert OccursAt(t, t[found.1.start..found.1.end], found.1.start);
    }
  }

  /** `extract_phone`: None for missing or empty text, otherwise the match
      of the first phone pattern, in list order, that matches anywhere. */
  function ExtractPhone(text: Option<string>): (r: Option<string>)
    ensures text.None? || text.value == [] ==> r.None?
  {
    if text.None? || text.value == [] then None
    else FirstMatchedText(PHONE_PATTERNS, text.value)
  }

  lemma ExtractPhoneFirstPattern(text: Option<string>)
    ensures text.None? || text.value == [] ==> ExtractPhone(text).None?
    ensures ExtractPhone(text).Some? ==>
      var t, s := text.value, ExtractPhone(text).value;
      exists k: nat, i: nat :: k < |PHONE_PATTERNS| && OccursAt(t, s, i) && Matches(PHONE_PATTERNS[k], s)
        && (forall j, a, b :: 0 <= j < k && 0 <= a <= b <= |t| ==> !Matches(PHONE_PATTERNS[j], t[a..b]))
        && (forall a, b :: 0 <= a < i && a <= b <= |t| ==> !Matches(PHONE_PATTERNS[k], t[a..b]))
    ensures text.Some? && text.value != [] && ExtractPhone(text).None? ==>
      forall j, a, b :: 0 <= j < |PHONE_PATTERNS| && 0 <= a <= b <= |text.value| ==>
        !Matches(PHONE_PATTERNS[j], text.value[a..b])
  {
    if text.Some? && text.value != [] {
      assert ExtractPhone(text) == FirstMatchedText(PHONE_PATTERNS, text.value);
      FirstMatchedTextSpec(PHONE_PATTERNS, text.value);
    }
  }
}
