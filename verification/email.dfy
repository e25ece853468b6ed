/**
  `isValidEmail` (js/main.js:165-168): the expression `^[^\s@]+@[^\s@]+\.[^\s@]+$`,
  and what it accepts stated without reference to the expression.
 */
module Email {
  import opened Text
  import opened Pattern

  /** `[^\s@]+` */
  const Word := Piece(NotSpaceOrAt, 1, Unbounded)

  const EmailPattern: seq<Piece> := [Word, Once('@'), Word, Once('.'), Word]

  predicate IsValidEmail(email: string) {
    Matches(EmailPattern, email)
  }

  /** No '@' in `s` other than the one at `at`. */
  predicate OnlyAt(s: string, at: int) {
    forall j | 0 <= j < |s| && j != at :: s[j] != '@'
  }

  /** The address as a reader would describe it: no whitespace, exactly one
      '@', something before it, and after it a domain that has a '.' which
      is neither its first nor its last character. */
  predicate WellFormedEmail(s: string) {
    && NoSpace(s)
    && exists at | 0 < at < |s| ::
         && s[at] == '@'
         && OnlyAt(s, at)
         && exists d | at + 1 < d < |s| - 1 :: s[d] == '.'
  }

  /** `s` is `local + "@" + domain + "." + tld` cut at `at` and `d`, each of
      the three parts a non-empty run without whitespace or '@'. */
  predicate CutAt(s: string, at: nat, d: nat) {
    && 0 < at && at + 1 < d && d + 1 < |s|
    && s[at] == '@' && s[d] == '.'
    && AllIn(NotSpaceOrAt, s[..at])
    && AllIn(NotSpaceOrAt, s[at + 1..d])
    && AllIn(NotSpaceOrAt, s[d + 1..])
  }

  lemma SliceFacts(s: string, local: string, atSign: string, domain: string, dot: string, tld: string)
    requires |atSign| == 1 && |dot| == 1
    requires s == local + (atSign + (domain + (dot + tld)))
    ensures s[..|local|] == local
    ensures s[|local|] == atSign[0]
    ensures s[|local| + 1..|local| + 1 + |domain|] == domain
    ensures s[|local| + 1 + |domain|] == dot[0]
    ensures s[|local| + 1 + |domain| + 1..] == tld
  {
  }

  /** The five runs a match of the expression is made of. */
  lemma MatchParts(s: string) returns (local: string, domain: string, tld: string)
    requires IsValidEmail(s)
    ensures s == local + (['@'] + (domain + (['.'] + tld)))
    ensures |local| > 0 && |domain| > 0 && |tld| > 0
    ensures AllIn(NotSpaceOrAt, local) && AllIn(NotSpaceOrAt, domain) && AllIn(NotSpaceOrAt, tld)
  {
    assert EmailPattern == [Word] + [Once('@'), Word, Once('.'), Word];
    var r1, r2, r3, r4, r5, atSign, dot;
    local, r1 := Uncons(Word, [Once('@'), Word, Once('.'), Word], s);
    assert [Once('@'), Word, Once('.'), Word] == [Once('@')] + [Word, Once('.'), Word];
    atSign, r2 := Uncons(Once('@'), [Word, Once('.'), Word], r1);
    assert [Word, Once('.'), Word] == [Word] + [Once('.'), Word];
    domain, r3 := Uncons(Word, [Once('.'), Word], r2);
    assert [Once('.'), Word] == [Once('.')] + [Word];
    dot, r4 := Uncons(Once('.'), [Word], r3);
    assert [Word] == [Word] + [];
    tld, r5 := Uncons(Word, [], r4);
    assert r4 == tld + r5 == tld;
    assert atSign == ['@'] by { assert |atSign| == 1 && atSign[0] == '@'; }
    assert dot == ['.'] by { assert |dot| == 1 && dot[0] == '.'; }
  }

  lemma MatchCut(s: string) returns (at: nat, d: nat)
    requires IsValidEmail(s)
    ensures CutAt(s, at, d)
  {
    var local, domain, tld := MatchParts(s);
    SliceFacts(s, local, ['@'], domain, ['.'], tld);
    at, d := |local|, |local| + 1 + |domain|;
  }

  lemma CutMatch(s: string, at: nat, d: nat)
    requires CutAt(s, at, d)
    ensures IsValidEmail(s)
  {
    var tld := s[d + 1..];
    Prepend(Word, [], tld, []);
    assert [Word] + [] == EmailPattern[4..];
    assert tld + [] == tld;
    Prepend(Once('.'), EmailPattern[4..], s[d..d + 1], tld);
    assert [Once('.')] + EmailPattern[4..] == EmailPattern[3..];
    assert s[d..d + 1] + tld == s[d..];
    Prepend(Word, EmailPattern[3..], s[at + 1..d], s[d..]);
    assert [Word] + EmailPattern[3..] == EmailPattern[2..];
    assert s[at + 1..d] + s[d..] == s[at + 1..];
    Prepend(Once('@'), EmailPattern[2..], s[at..at + 1], s[at + 1..]);
    assert [Once('@')] + EmailPattern[2..] == EmailPattern[1..];
    assert s[at..at + 1] + s[at + 1..] == s[at..];
    Prepend(Word, EmailPattern[1..], s[..at], s[at..]);
    assert [Word] + EmailPattern[1..] == EmailPattern;
    assert s[..at] + s[at..] == s;
  }

  lemma CutWellFormed(s: string, at: nat, d: nat)
    requires CutAt(s, at, d)
    ensures NoSpace(s) && OnlyAt(s, at)
  {
    forall j | 0 <= j < |s|
      ensures !IsSpace(s[j]) && (j != at ==> s[j] != '@')
    {
      if j < at {
        assert s[..at][j] == s[j];
      } else if at < j < d {
        assert s[at + 1..d][j - at - 1] == s[j];
      } else if d < j {
        assert s[d + 1..][j - d - 1] == s[j];
      }
    }
  }

  lemma WellFormedCut(s: string, at: nat, d: nat)
    requires NoSpace(s) && 0 < at < |s| && s[at] == '@' && OnlyAt(s, at)
    requires at + 1 < d < |s| - 1 && s[d] == '.'
    ensures CutAt(s, at, d)
  {
    forall j | 0 <= j < at ensures InClass(NotSpaceOrAt, s[..at][j]) {
      assert s[..at][j] == s[j];
    }
    var domain, tld := s[at + 1..d], s[d + 1..];
    forall j | 0 <= j < |domain| ensures InClass(NotSpaceOrAt, domain[j]) {
      assert domain[j] == s[at + 1 + j];
    }
    forall j | 0 <= j < |tld| ensures InClass(NotSpaceOrAt, tld[j]) {
      assert tld[j] == s[d + 1 + j];
    }
  }

  /** The expression accepts exactly the well-formed addresses. */
  lemma EmailCharacterization(s: string)
    ensures IsValidEmail(s) <==> WellFormedEmail(s)
  {
    if IsValidEmail(s) {
      var at, d := MatchCut(s);
      CutWellFormed(s, at, d);
    }
    if WellFormedEmail(s) {
      var at :| 0 < at < |s| && s[at] == '@' && OnlyAt(s, at) && exists d | at + 1 < d < |s| - 1 :: s[d] == '.';
      var d :| at + 1 < d < |s| - 1 && s[d] == '.';
      WellFormedCut(s, at, d);
      CutMatch(s, at, d);
    }
  }

  lemma EmailExamples()
    ensures IsValidEmail("a@b.co")
    ensures !IsValidEmail("a@b")
    ensures !IsValidEmail("a@@b.co")
  {
    EmailCharacterization("a@b.co");
    EmailCharacterization("a@b");
    EmailCharacterization("a@@b.co");
    var s := "a@b.co";
    assert s[1] == '@' && OnlyAt(s, 1) && s[3] == '.';
    var t := "a@@b.co";
    assert t[1] == '@' && t[2] == '@';
  }
}
