/**
  The handler's email check: the regular expression ^[^\s@]+@[^\s@]+\.[^\s@]+$
  (server.js:39-40) as a small anchored matcher, and a description of the
  strings it accepts in plain terms, proved equivalent.
 */
module EmailFormat {
  import opened Text

  /** A negated character class `[^...]`: it excludes the whitespace class
      when `whitespace` holds, and every character listed in `chars`. */
  datatype CharClass = NoneOf(whitespace: bool, chars: seq<char>)

  predicate InClass(cls: CharClass, c: char)
  {
    !(cls.whitespace && IsSpace(c)) && c !in cls.chars
  }

  predicate AllIn(cls: CharClass, s: string)
  {
    forall k :: 0 <= k < |s| ==> InClass(cls, s[k])
  }

  /** A regular expression anchored at both ends, as a chain of atoms. */
  datatype Regex =
    | End                                   // `$`
    | Char(c: char, next: Regex)            // a literal character, such as `@` or `\.`
    | OneOrMore(cls: CharClass, next: Regex) // `[...]+`

  /** `test` on an anchored expression: some way of matching consumes all of `s`. */
  predicate Matches(r: Regex, s: string)
    decreases |s|
  {
    match r
    case End => s == []
    case Char(c, next) => s != [] && s[0] == c && Matches(next, s[1..])
    case OneOrMore(cls, next) =>
      s != [] && InClass(cls, s[0]) && (Matches(next, s[1..]) || Matches(r, s[1..]))
  }

  /** `[^\s@]` */
  const Segment := NoneOf(true, ['@'])

  /** `^[^\s@]+@[^\s@]+\.[^\s@]+$` */
  const Email := OneOrMore(Segment, Char('@', Domain))

  function Occurrences(s: string, c: char): (n: nat)
    ensures n <= |s|
    ensures n == 0 <==> c !in s
  {
    if s == [] then 0 else (if s[0] == c then 1 else 0) + Occurrences(s[1..], c)
  }

  /** The accepted emails in plain terms: no whitespace, exactly one `@`, a
      non-empty part before it, and a `.` in the part after it that is
      neither that part's first nor its last character. */
  predicate WellFormedEmail(s: string)
  {
    NoWhitespace(s) && Occurrences(s, '@') == 1 &&
    exists at, dot :: 0 < at && at + 1 < dot < |s| - 1 && s[at] == '@' && s[dot] == '.'
  }

  lemma SegmentMembers(s: string)
    ensures AllIn(Segment, s) <==> NoWhitespace(s) && '@' !in s
  {
  }

  lemma {:induction false} OccurrencesConcat(x: string, y: string, c: char)
    ensures Occurrences(x + y, c) == Occurrences(x, c) + Occurrences(y, c)
  {
    if x == [] {
      assert x + y == y;
    } else {
      assert (x + y)[0] == x[0] && (x + y)[1..] == x[1..] + y;
      OccurrencesConcat(x[1..], y, c);
    }
  }

  /** Matching `[...]+` then the rest: a non-empty run of class members, then the rest. */
  lemma {:induction false} OneOrMoreIntro(cls: CharClass, next: Regex, s: string, k: nat)
    requires 1 <= k <= |s| && AllIn(cls, s[..k]) && Matches(next, s[k..])
    ensures Matches(OneOrMore(cls, next), s)
    decreases k
  {
    assert InClass(cls, s[..k][0]);
    if k > 1 {
      assert s[1..][..k - 1] == s[1..k] && s[1..][k - 1..] == s[k..];
      assert AllIn(cls, s[1..k]) by {
        forall i | 0 <= i < k - 1 ensures InClass(cls, s[1..k][i]) {
          assert s[1..k][i] == s[..k][i + 1];
        }
      }
      OneOrMoreIntro(cls, next, s[1..], k - 1);
    }
  }

  /** The converse of OneOrMoreIntro: a match splits after some run of length `k`. */
  lemma {:induction false} OneOrMoreElim(cls: CharClass, next: Regex, s: string) returns (k: nat)
    requires Matches(OneOrMore(cls, next), s)
    ensures 1 <= k <= |s| && AllIn(cls, s[..k]) && Matches(next, s[k..])
    decreases |s|
  {
    if Matches(next, s[1..]) {
      k := 1;
    } else {
      var k' := OneOrMoreElim(cls, next, s[1..]);
      k := k' + 1;
      assert s[1..][k'..] == s[k..];
      forall i | 0 <= i < k ensures InClass(cls, s[..k][i]) {
        if i > 0 { assert s[..k][i] == s[1..][..k'][i - 1]; }
      }
    }
  }

  /** `\.[^\s@]+$` */
  const TopLevel := Char('.', OneOrMore(Segment, End))

  /** `[^\s@]+\.[^\s@]+$` */
  const Domain := OneOrMore(Segment, TopLevel)

  lemma TopLevelMatches(c: string)
    requires c != [] && AllIn(Segment, c)
    ensures Matches(TopLevel, ['.'] + c)
  {
    assert c[..|c|] == c && c[|c|..] == [];
    OneOrMoreIntro(Segment, End, c, |c|);
    assert (['.'] + c)[1..] == c;
  }

  lemma DomainMatches(b: string, c: string)
    requires b != [] && c != [] && AllIn(Segment, b) && AllIn(Segment, c)
    ensures Matches(Domain, b + ['.'] + c)
  {
    TopLevelMatches(c);
    var domain := b + (['.'] + c);
    assert domain[..|b|] == b && domain[|b|..] == ['.'] + c;
    OneOrMoreIntro(Segment, TopLevel, domain, |b|);
    assert domain == b + ['.'] + c;
  }

  /** Every string of the form a@b.c with non-empty segments matches the expression. */
  lemma ShapeMatches(a: string, b: string, c: string)
    requires a != [] && b != [] && c != []
    requires AllIn(Segment, a) && AllIn(Segment, b) && AllIn(Segment, c)
    ensures Matches(Email, a + ['@'] + b + ['.'] + c)
  {
    var domain := b + ['.'] + c;
    DomainMatches(b, c);
    var at := ['@'] + domain;
    assert at[1..] == domain;
    assert Matches(Char('@', Domain), at);
    var s := a + at;
    assert s[..|a|] == a && s[|a|..] == at;
    OneOrMoreIntro(Segment, Char('@', Domain), s, |a|);
    assert s == a + ['@'] + b + ['.'] + c;
  }

  lemma DomainHasShape(domain: string) returns (b: string, c: string)
    requires Matches(Domain, domain)
    ensures b != [] && c != [] && AllIn(Segment, b) && AllIn(Segment, c)
    ensures domain == b + ['.'] + c
  {
    var k2 := OneOrMoreElim(Segment, TopLevel, domain);
    b := domain[..k2];
    c := domain[k2 + 1..];
    assert domain[k2..][1..] == c;
    var k3 := OneOrMoreElim(Segment, End, c);
    assert c[..k3] == c;
    assert domain == b + [domain[k2]] + c;
  }

  /** Every match of the expression has the form a@b.c with non-empty segments. */
  lemma MatchHasShape(s: string) returns (a: string, b: string, c: string)
    requires Matches(Email, s)
    ensures a != [] && b != [] && c != []
    ensures AllIn(Segment, a) && AllIn(Segment, b) && AllIn(Segment, c)
    ensures s == a + ['@'] + b + ['.'] + c
  {
    var k1 := OneOrMoreElim(Segment, Char('@', Domain), s);
    a := s[..k1];
    var domain := s[k1 + 1..];
    assert s[k1..][1..] == domain;
    b, c := DomainHasShape(domain);
    assert s == a + [s[k1]] + domain;
  }

  /** The number of `@` in a@b.c whose segments hold none. */
  lemma ShapeOccurrences(a: string, b: string, c: string)
    requires '@' !in a && '@' !in b && '@' !in c
    ensures Occurrences(a + ['@'] + b + ['.'] + c, '@') == 1
  {
    assert Occurrences(['@'], '@') == 1;
    assert Occurrences(['.'], '@') == 0;
    OccurrencesConcat(a, ['@'], '@');
    OccurrencesConcat(a + ['@'], b, '@');
    OccurrencesConcat(a + ['@'] + b, ['.'], '@');
    OccurrencesConcat(a + ['@'] + b + ['.'], c, '@');
  }

  lemma ConcatNoWhitespace(x: string, y: string)
    requires NoWhitespace(x) && NoWhitespace(y)
    ensures NoWhitespace(x + y)
  {
  }

  lemma ShapeIsWellFormed(a: string, b: string, c: string)
    requires a != [] && b != [] && c != []
    requires AllIn(Segment, a) && AllIn(Segment, b) && AllIn(Segment, c)
    ensures WellFormedEmail(a + ['@'] + b + ['.'] + c)
  {
    SegmentMembers(a);
    SegmentMembers(b);
    SegmentMembers(c);
    ShapeOccurrences(a, b, c);
    var domain := b + ['.'] + c;
    ConcatNoWhitespace(b, ['.']);
    ConcatNoWhitespace(b + ['.'], c);
    ConcatNoWhitespace(a, ['@']);
    ConcatNoWhitespace(a + ['@'], domain);
    var s := a + ['@'] + domain;
    assert s[|a|] == '@' && s[|a| + 1 + |b|] == '.';
    assert s == a + ['@'] + b + ['.'] + c;
  }

  lemma SliceNoWhitespace(s: string, i: nat, j: nat)
    requires NoWhitespace(s) && i <= j <= |s|
    ensures NoWhitespace(s[i..j])
  {
  }

  /** With a single `@`, neither side of it holds another. */
  lemma SingleAt(a: string, domain: string)
    requires Occurrences(a + ['@'] + domain, '@') == 1
    ensures '@' !in a && '@' !in domain
  {
    OccurrencesConcat(a, ['@'], '@');
    OccurrencesConcat(a + ['@'], domain, '@');
    assert Occurrences(['@'], '@') == 1;
  }

  lemma InnerDotShape(domain: string, j: nat) returns (b: string, c: string)
    requires 0 < j < |domain| - 1 && domain[j] == '.'
    requires NoWhitespace(domain) && '@' !in domain
    ensures b != [] && c != [] && AllIn(Segment, b) && AllIn(Segment, c)
    ensures domain == b + ['.'] + c
  {
    b, c := domain[..j], domain[j + 1..];
    assert domain == b + [domain[j]] + c;
    SliceNoWhitespace(domain, 0, j);
    SliceNoWhitespace(domain, j + 1, |domain|);
    SegmentMembers(b);
    SegmentMembers(c);
  }

  lemma SplitAtShape(s: string, at: nat, dot: nat) returns (a: string, b: string, c: string)
    requires 0 < at && at + 1 < dot < |s| - 1 && s[at] == '@' && s[dot] == '.'
    requires NoWhitespace(s) && Occurrences(s, '@') == 1
    ensures a != [] && b != [] && c != []
    ensures AllIn(Segment, a) && AllIn(Segment, b) && AllIn(Segment, c)
    ensures s == a + ['@'] + b + ['.'] + c
  {
    var domain := s[at + 1..];
    a := s[..at];
    assert s == a + ['@'] + domain;
    SingleAt(a, domain);
    SliceNoWhitespace(s, 0, at);
    SliceNoWhitespace(s, at + 1, |s|);
    SegmentMembers(a);
    assert domain[dot - at - 1] == '.';
    b, c := InnerDotShape(domain, dot - at - 1);
  }

  lemma WellFormedHasShape(s: string) returns (a: string, b: string, c: string)
    requires WellFormedEmail(s)
    ensures a != [] && b != [] && c != []
    ensures AllIn(Segment, a) && AllIn(Segment, b) && AllIn(Segment, c)
    ensures s == a + ['@'] + b + ['.'] + c
  {
    var at, dot :| 0 < at && at + 1 < dot < |s| - 1 && s[at] == '@' && s[dot] == '.';
    a, b, c := SplitAtShape(s, at, dot);
  }

  /** The expression accepts exactly the well-formed emails. */
  lemma EmailRegexCharacterised(s: string)
    ensures Matches(Email, s) <==> WellFormedEmail(s)
  {
    if Matches(Email, s) {
      var a, b, c := MatchHasShape(s);
      ShapeIsWellFormed(a, b, c);
    }
    if WellFormedEmail(s) {
      var a, b, c := WellFormedHasShape(s);
      ShapeMatches(a, b, c);
    }
  }

  /** A string that passes the check has no whitespace, so `trim` leaves it, and
      its lower-cased form, unchanged: the lookup key equals the stored key. */
  lemma AcceptedEmailIsTrimmed(s: string)
    requires Matches(Email, s)
    ensures NoWhitespace(s) && Trim(s) == s
    ensures Trim(ToLower(s)) == ToLower(s) == ToLower(Trim(s))
  {
    EmailRegexCharacterised(s);
    TrimNoWhitespace(s);
    ToLowerNoWhitespace(s);
    TrimNoWhitespace(ToLower(s));
  }

  /** Lower-casing an accepted email gives an accepted email. */
  lemma LoweredEmailMatches(s: string)
    requires Matches(Email, s)
    ensures Matches(Email, ToLower(s))
  {
    var a, b, c := MatchHasShape(s);
    ToLowerConcat(a + ['@'] + b + ['.'], c);
    ToLowerConcat(a + ['@'] + b, ['.']);
    ToLowerConcat(a + ['@'], b);
    ToLowerConcat(a, ['@']);
    assert ToLower(['.']) == ['.'] && ToLower(['@']) == ['@'];
    forall t | t in {a, b, c} ensures AllIn(Segment, ToLower(t)) {
      SegmentMembers(t);
      ToLowerNoWhitespace(t);
      forall k | 0 <= k < |t| ensures ToLower(t)[k] != '@' { }
    }
    ShapeMatches(ToLower(a), ToLower(b), ToLower(c));
  }
}
