/**
  `isValidPhone` (js/main.js:170-173): the expression
  `^[\+]?[(]?[0-9]{1,4}[)]?[-\s\.]?[(]?[0-9]{1,4}[)]?[-\s\.]?[0-9]{1,9}$`,
  with the bounds it puts on the characters, the length and the number of
  digits and separators of an accepted number.
 */
module Phone {
  import opened Text
  import opened Pattern

  /** `[0-9]{1,n}` */
  function Digits(n: nat): Piece {
    Piece(Digit, 1, Finite(n))
  }

  const PhonePattern: seq<Piece> := [
    Maybe(Lit('+')), Maybe(Lit('(')), Digits(4), Maybe(Lit(')')), Maybe(Separator),
    Maybe(Lit('(')), Digits(4), Maybe(Lit(')')), Maybe(Separator), Digits(9)
  ]

  predicate IsValidPhone(phone: string) {
    Matches(PhonePattern, phone)
  }

  /** A character of the class `[-\s\.]`. */
  predicate IsSeparator(c: char) {
    InClass(Separator, c)
  }

  predicate PhoneChar(c: char) {
    IsDigit(c) || c == '+' || c == '(' || c == ')' || IsSeparator(c)
  }

  /** An accepted number is made of digits, '+', '(', ')', '-', '.' and
      whitespace only. */
  lemma PhoneCharset(s: string)
    requires IsValidPhone(s)
    ensures forall i | 0 <= i < |s| :: PhoneChar(s[i])
  {
    MatchAdmits(PhonePattern, s);
    forall i | 0 <= i < |s|
      ensures PhoneChar(s[i])
    {
      AdmittedIsPhoneChar(s[i]);
    }
  }

  lemma AdmittedIsPhoneChar(c: char)
    requires Admits(PhonePattern, c)
    ensures PhoneChar(c)
  {
    var j :| 0 <= j < |PhonePattern| && InClass(PhonePattern[j].cls, c);
  }

  /** A '+' can only open the number. */
  lemma PlusOnlyFirst(s: string)
    requires IsValidPhone(s)
    ensures forall i | 0 < i < |s| :: s[i] != '+'
  {
    var rest := PhonePattern[1..];
    assert PhonePattern == [Maybe(Lit('+'))] + rest;
    var a, b := Uncons(Maybe(Lit('+')), rest, s);
    MatchAdmits(rest, b);
    PlusNotAdmittedLater();
    forall i | 0 < i < |s|
      ensures s[i] != '+'
    {
      assert s[i] == b[i - |a|];
    }
  }

  lemma PlusNotAdmittedLater()
    ensures !Admits(PhonePattern[1..], '+')
  {
    forall j | 0 <= j < |PhonePattern[1..]|
      ensures !InClass(PhonePattern[1..][j].cls, '+')
    {
      assert PhonePattern[1..][j] == PhonePattern[j + 1];
    }
  }

  /** An accepted number is 3 to 24 characters long. */
  lemma PhoneLength(s: string)
    requires IsValidPhone(s)
    ensures 3 <= |s| <= 24
  {
    MatchLength(PhonePattern, s);
  }

  lemma PhoneBounded()
    ensures Bounded(PhonePattern)
  {
  }

  /** Only the digit groups are made of digits; the other pieces admit
      none. */
  lemma DigitClasses()
    ensures Within(Digit, IsDigit) && !Disjoint(Digit, IsDigit)
    ensures !Within(Lit('+'), IsDigit) && Disjoint(Lit('+'), IsDigit)
    ensures !Within(Lit('('), IsDigit) && Disjoint(Lit('('), IsDigit)
    ensures !Within(Lit(')'), IsDigit) && Disjoint(Lit(')'), IsDigit)
    ensures !Within(Separator, IsDigit) && Disjoint(Separator, IsDigit)
  {
    assert InClass(Digit, '0');
    assert InClass(Lit('+'), '+');
    assert InClass(Lit('('), '(');
    assert InClass(Lit(')'), ')');
    assert InClass(Separator, '-');
  }

  lemma DigitBudget()
    ensures MinCount(PhonePattern, IsDigit) == 3
    ensures MaxCount(PhonePattern, IsDigit) == 17
  {
    DigitClasses();
  }

  lemma SeparatorBudget()
    ensures MaxCount(PhonePattern, IsSeparator) == 2
  {
    assert !Disjoint(Separator, IsSeparator) by { assert InClass(Separator, '-'); }
    assert Disjoint(Lit('+'), IsSeparator) && Disjoint(Lit('('), IsSeparator) && Disjoint(Lit(')'), IsSeparator);
    assert Disjoint(Digit, IsSeparator);
  }

  /** An accepted number holds 3 to 17 digits. */
  lemma PhoneDigitCount(s: string)
    requires IsValidPhone(s)
    ensures 3 <= CountWhere(s, IsDigit) <= 17
  {
    PhoneBounded();
    MatchCount(PhonePattern, s, IsDigit);
    DigitBudget();
  }

  /** An accepted number holds at most two separators. */
  lemma PhoneSeparatorCount(s: string)
    requires IsValidPhone(s)
    ensures CountWhere(s, IsSeparator) <= 2
  {
    PhoneBounded();
    MatchCount(PhonePattern, s, IsSeparator);
    SeparatorBudget();
  }

  /** Between 1 and `n` digits. */
  predicate DigitRun(t: string, n: nat) {
    1 <= |t| <= n && forall i | 0 <= i < |t| :: IsDigit(t[i])
  }

  /** Nothing, or one separator. */
  predicate OptionalSeparator(x: string) {
    |x| == 0 || (|x| == 1 && IsSeparator(x[0]))
  }

  /** The last five pieces accept `b + y + c`. */
  lemma GroupedTail(b: string, y: string, c: string)
    requires DigitRun(b, 4) && OptionalSeparator(y) && DigitRun(c, 9)
    ensures Matches(PhonePattern[5..], b + (y + c))
  {
    var ps := PhonePattern;
    assert ps[10..] == [] && c + [] == c;
    PrependAt(ps, 9, c, []);
    PrependAt(ps, 8, y, c);
    PrependAt(ps, 7, [], y + c);
    assert [] + (y + c) == y + c;
    PrependAt(ps, 6, b, y + c);
    PrependAt(ps, 5, [], b + (y + c));
    assert [] + (b + (y + c)) == b + (y + c);
  }

  lemma Regroup(a: string, x: string, b: string, y: string, c: string)
    ensures a + x + b + y + c == a + (x + (b + (y + c)))
  {
  }

  /** Pieces 2 to 4 put `a + x` in front of a match of the last five. */
  lemma GroupedMiddle(a: string, x: string, t: string)
    requires DigitRun(a, 4) && OptionalSeparator(x)
    requires Matches(PhonePattern[5..], t)
    ensures Matches(PhonePattern[2..], a + (x + t))
  {
    var ps := PhonePattern;
    PrependAt(ps, 4, x, t);
    PrependAt(ps, 3, [], x + t);
    assert [] + (x + t) == x + t;
    PrependAt(ps, 2, a, x + t);
  }

  /** The two optional leading pieces may take nothing. */
  lemma GroupedHead(u: string)
    requires Matches(PhonePattern[2..], u)
    ensures IsValidPhone(u)
  {
    var ps := PhonePattern;
    PrependAt(ps, 1, [], u);
    assert [] + u == u;
    PrependAt(ps, 0, [], u);
    assert ps[0..] == ps;
  }

  /** Three digit groups of at most 4, 4 and 9 digits, each of the two gaps
      empty or one separator, form an accepted number. */
  lemma GroupedNumber(a: string, x: string, b: string, y: string, c: string)
    requires DigitRun(a, 4) && OptionalSeparator(x) && DigitRun(b, 4)
    requires OptionalSeparator(y) && DigitRun(c, 9)
    ensures IsValidPhone(a + x + b + y + c)
  {
    GroupedTail(b, y, c);
    GroupedMiddle(a, x, b + (y + c));
    GroupedHead(a + (x + (b + (y + c))));
    Regroup(a, x, b, y, c);
  }

  /** Nothing, or the single character `ch`. */
  predicate OptionalChar(t: string, ch: char) {
    t == [] || t == [ch]
  }

  /** Pieces 5 to 9: an optional '(', a group, an optional ')', an
      optional separator and the last group. */
  lemma PunctuatedTail(o: string, b: string, cl: string, y: string, c: string)
    requires OptionalChar(o, '(') && DigitRun(b, 4) && OptionalChar(cl, ')')
    requires OptionalSeparator(y) && DigitRun(c, 9)
    ensures Matches(PhonePattern[5..], o + (b + (cl + (y + c))))
  {
    var ps := PhonePattern;
    assert ps[10..] == [] && c + [] == c;
    PrependAt(ps, 9, c, []);
    PrependAt(ps, 8, y, c);
    PrependAt(ps, 7, cl, y + c);
    PrependAt(ps, 6, b, cl + (y + c));
    PrependAt(ps, 5, o, b + (cl + (y + c)));
  }

  /** Pieces 2 to 4: a group, an optional ')' and an optional separator,
      in front of a match of the last five. */
  lemma PunctuatedMiddle(a: string, cl: string, x: string, t: string)
    requires DigitRun(a, 4) && OptionalChar(cl, ')') && OptionalSeparator(x)
    requires Matches(PhonePattern[5..], t)
    ensures Matches(PhonePattern[2..], a + (cl + (x + t)))
  {
    var ps := PhonePattern;
    PrependAt(ps, 4, x, t);
    PrependAt(ps, 3, cl, x + t);
    PrependAt(ps, 2, a, cl + (x + t));
  }

  /** Pieces 0 and 1: an optional '+' and an optional '('. */
  lemma PunctuatedLead(p: string, o: string, u: string)
    requires OptionalChar(p, '+') && OptionalChar(o, '(')
    requires Matches(PhonePattern[2..], u)
    ensures IsValidPhone(p + (o + u))
  {
    var ps := PhonePattern;
    PrependAt(ps, 1, o, u);
    PrependAt(ps, 0, p, o + u);
    assert ps[0..] == ps;
  }

  lemma RegroupSix(a: string, b: string, c: string, d: string, e: string, f: string)
    ensures a + b + c + d + e + f == a + (b + (c + (d + (e + f))))
  {
  }

  /** The general accepted shape: an optional '+', then two groups of at
      most 4 digits, each optionally in parentheses (each parenthesis
      optional on its own, as in the expression) and each followed by an
      optional separator, then a last group of at most 9 digits. */
  lemma PunctuatedNumber(p: string, o1: string, a: string, c1: string, x: string,
                         o2: string, b: string, c2: string, y: string, c: string)
    requires OptionalChar(p, '+')
    requires OptionalChar(o1, '(') && DigitRun(a, 4) && OptionalChar(c1, ')') && OptionalSeparator(x)
    requires OptionalChar(o2, '(') && DigitRun(b, 4) && OptionalChar(c2, ')') && OptionalSeparator(y)
    requires DigitRun(c, 9)
    ensures IsValidPhone(p + o1 + a + c1 + x + o2 + b + c2 + y + c)
  {
    var t := o2 + (b + (c2 + (y + c)));
    var u := a + (c1 + (x + t));
    PunctuatedTail(o2, b, c2, y, c);
    PunctuatedMiddle(a, c1, x, t);
    PunctuatedLead(p, o1, u);
    RegroupSix(p + o1 + a + c1 + x, o2, b, c2, y, c);
    RegroupSix(p, o1, a, c1, x, t);
  }

  /** A number with its area code in parentheses. */
  lemma AcceptsParenthesisedNumber()
    ensures IsValidPhone("(555) 123-4567")
  {
    var a, b, c := "555", "123", "4567";
    assert DigitRun(a, 4) && DigitRun(b, 4) && DigitRun(c, 9);
    assert IsSeparator(' ') && IsSeparator('-');
    PunctuatedNumber([], "(", a, ")", " ", [], b, [], "-", c);
    assert [] + "(" + a + ")" + " " + [] + b + [] + "-" + c == "(555) 123-4567";
  }

  /** An international number with a leading '+'. */
  lemma AcceptsInternationalNumber()
    ensures IsValidPhone("+44 20 79460958")
  {
    var a, b, c := "44", "20", "79460958";
    assert DigitRun(a, 4) && DigitRun(b, 4) && DigitRun(c, 9);
    assert IsSeparator(' ');
    PunctuatedNumber("+", [], a, [], " ", [], b, [], " ", c);
    assert "+" + [] + a + [] + " " + [] + b + [] + " " + c == "+44 20 79460958";
  }

  /** Every run of 3 to 17 digits is accepted, so the digit bounds of
      `PhoneDigitCount` cannot be tightened. */
  lemma DigitsOnlyAccepted(s: string)
    requires 3 <= |s| <= 17
    requires forall i | 0 <= i < |s| :: IsDigit(s[i])
    ensures IsValidPhone(s)
  {
    var cLen := if |s| - 2 < 9 then |s| - 2 else 9;
    var r := |s| - cLen;
    var aLen := if r - 1 < 4 then r - 1 else 4;
    var a, b, c := s[..aLen], s[aLen..r], s[r..];
    assert forall i | 0 <= i < |a| :: a[i] == s[i];
    assert forall i | 0 <= i < |b| :: b[i] == s[aLen + i];
    assert forall i | 0 <= i < |c| :: c[i] == s[r + i];
    assert a + [] + b + [] + c == s;
    GroupedNumber(a, [], b, [], c);
  }

  /** A character outside the phone alphabet rules a string out. */
  lemma RejectsForeignChar(s: string, i: nat)
    requires i < |s| && !PhoneChar(s[i])
    ensures !IsValidPhone(s)
  {
    if IsValidPhone(s) {
      PhoneCharset(s);
    }
  }

  /** More than two separators rule a string out. */
  lemma RejectsManySeparators(s: string)
    requires CountWhere(s, IsSeparator) > 2
    ensures !IsValidPhone(s)
  {
    if IsValidPhone(s) {
      PhoneSeparatorCount(s);
    }
  }

  /** Three separators anywhere rule a string out. */
  lemma RejectsThreeSeparatorsAt(s: string, i: nat, j: nat, k: nat)
    requires i < j < k < |s|
    requires IsSeparator(s[i]) && IsSeparator(s[j]) && IsSeparator(s[k])
    ensures !IsValidPhone(s)
  {
    var front, middle, back := s[..j], s[j..k], s[k..];
    assert front[i] == s[i] && middle[0] == s[j] && back[0] == s[k];
    CountWhereHit(front, IsSeparator, i);
    CountWhereHit(middle, IsSeparator, 0);
    CountWhereHit(back, IsSeparator, 0);
    assert s == front + (middle + back);
    CountWhereConcat(middle, back, IsSeparator);
    CountWhereConcat(front, middle + back, IsSeparator);
    RejectsManySeparators(s);
  }

  lemma AcceptsLocalNumber()
    ensures IsValidPhone("555-123-4567")
  {
    var s := "555-123-4567";
    assert s == s[..3] + s[3..4] + s[4..7] + s[7..8] + s[8..];
    GroupedNumber(s[..3], s[3..4], s[4..7], s[7..8], s[8..]);
  }

  lemma RejectsLetters()
    ensures !IsValidPhone("abc")
  {
    RejectsForeignChar("abc", 0);
  }

  /** The international form "+1-555-123-4567" uses three separators and is
      rejected. */
  lemma RejectsThreeSeparators()
    ensures !IsValidPhone("+1-555-123-4567")
  {
    RejectsThreeSeparatorsAt("+1-555-123-4567", 2, 6, 10);
  }
}
