/**
  The fragment of JavaScript regular expressions used by the two form-field
  recognisers: an anchored (`^...$`) concatenation of pieces, each piece a
  character class repeated between a lower and an upper number of times.

  `RegExp.prototype.test` on such an expression answers whether the whole
  string is in the expression's language (backtracking tries every way of
  cutting the string), so a match is written here as an existential over
  the split points between consecutive pieces.
 */
module Pattern {
  import opened Text

  datatype CharClass =
    | Digit         // [0-9]
    | Lit(c: char)  // one literal character: [\+], [(], @, \.
    | Separator     // [-\s\.]
    | NotSpaceOrAt  // [^\s@]

  predicate InClass(cls: CharClass, c: char) {
    match cls
    case Digit => IsDigit(c)
    case Lit(d) => c == d
    case Separator => c == '-' || c == '.' || IsSpace(c)
    case NotSpaceOrAt => !IsSpace(c) && c != '@'
  }

  datatype Bound = Finite(n: nat) | Unbounded

  /** A class repeated `min` to `max` times: `x?` is (0, 1), `x+` is
      (1, unbounded) and `x{1,4}` is (1, 4). */
  datatype Piece = Piece(cls: CharClass, min: nat, max: Bound)

  /** A literal character taken exactly once. */
  function Once(c: char): Piece {
    Piece(Lit(c), 1, Finite(1))
  }

  /** `x?` */
  function Maybe(cls: CharClass): Piece {
    Piece(cls, 0, Finite(1))
  }

  predicate AllIn(cls: CharClass, t: string) {
    forall i | 0 <= i < |t| :: InClass(cls, t[i])
  }

  /** The largest number of characters `p` may take from `n` available. */
  function Reach(p: Piece, n: nat): (m: nat)
    ensures m <= n
    ensures p.max.Unbounded? ==> m == n
    ensures p.max.Finite? ==> m <= p.max.n && (m == n || m == p.max.n)
  {
    match p.max
    case Finite(b) => if b < n then b else n
    case Unbounded => n
  }

  /** The whole of `s` is matched by the concatenation of `ps`. */
  predicate Matches(ps: seq<Piece>, s: string)
    decreases |ps|, 1
  {
    if |ps| == 0 then s == []
    else exists k | 0 <= k <= |s| :: MatchesCut(ps, s, k)
  }

  /** The first piece of `ps` takes the first `k` characters of `s` and the
      other pieces match the rest. */
  predicate MatchesCut(ps: seq<Piece>, s: string, k: nat)
    requires |ps| > 0
    decreases |ps|, 0
  {
    && ps[0].min <= k <= Reach(ps[0], |s|)
    && AllIn(ps[0].cls, s[..k])
    && Matches(ps[1..], s[k..])
  }

  /** Every piece has a finite upper bound. */
  predicate Bounded(ps: seq<Piece>) {
    forall j | 0 <= j < |ps| :: ps[j].max.Finite?
  }

  function MinLength(ps: seq<Piece>): nat {
    if ps == [] then 0 else ps[0].min + MinLength(ps[1..])
  }

  function MaxLength(ps: seq<Piece>): nat
    requires Bounded(ps)
  {
    if ps == [] then 0 else ps[0].max.n + MaxLength(ps[1..])
  }

  /** Some piece of `ps` admits `c`. */
  predicate Admits(ps: seq<Piece>, c: char) {
    exists j | 0 <= j < |ps| :: InClass(ps[j].cls, c)
  }

  /** Every character of `cls` satisfies `p`. */
  ghost predicate Within(cls: CharClass, p: char -> bool) {
    forall c :: InClass(cls, c) ==> p(c)
  }

  /** No character of `cls` satisfies `p`. */
  ghost predicate Disjoint(cls: CharClass, p: char -> bool) {
    forall c :: InClass(cls, c) ==> !p(c)
  }

  /** The fewest characters satisfying `p` that a match of `ps` must hold. */
  ghost function MinCount(ps: seq<Piece>, p: char -> bool): nat {
    if ps == [] then 0
    else (if Within(ps[0].cls, p) then ps[0].min else 0) + MinCount(ps[1..], p)
  }

  /** The most characters satisfying `p` that a match of `ps` can hold. */
  ghost function MaxCount(ps: seq<Piece>, p: char -> bool): nat
    requires Bounded(ps)
  {
    if ps == [] then 0
    else (if Disjoint(ps[0].cls, p) then 0 else ps[0].max.n) + MaxCount(ps[1..], p)
  }

  /** Prepending a run of `head.cls` of admissible length to a match of
      `ps` gives a match of `[head] + ps`. */
  lemma Prepend(head: Piece, ps: seq<Piece>, a: string, b: string)
    requires head.min <= |a|
    requires head.max.Finite? ==> |a| <= head.max.n
    requires AllIn(head.cls, a)
    requires Matches(ps, b)
    ensures Matches([head] + ps, a + b)
  {
    var s := a + b;
    assert s[..|a|] == a && s[|a|..] == b;
    assert ([head] + ps)[1..] == ps;
    assert MatchesCut([head] + ps, s, |a|);
  }

  /** `Prepend` for the piece at index `k` of a longer pattern. */
  lemma PrependAt(ps: seq<Piece>, k: nat, a: string, b: string)
    requires k < |ps|
    requires ps[k].min <= |a|
    requires ps[k].max.Finite? ==> |a| <= ps[k].max.n
    requires AllIn(ps[k].cls, a)
    requires Matches(ps[k + 1..], b)
    ensures Matches(ps[k..], a + b)
  {
    assert ps[k..] == [ps[k]] + ps[k + 1..];
    Prepend(ps[k], ps[k + 1..], a, b);
  }

  /** The first piece of a match takes a run `a` of admissible length and
      the remaining pieces match the rest `b`. */
  lemma Uncons(head: Piece, ps: seq<Piece>, s: string) returns (a: string, b: string)
    requires Matches([head] + ps, s)
    ensures s == a + b
    ensures head.min <= |a| && (head.max.Finite? ==> |a| <= head.max.n)
    ensures AllIn(head.cls, a) && Matches(ps, b)
  {
    assert ([head] + ps)[0] == head && ([head] + ps)[1..] == ps;
    var k :| 0 <= k <= |s| && MatchesCut([head] + ps, s, k);
    a, b := s[..k], s[k..];
  }

  /** A match of `ps` consists of characters some piece admits. */
  lemma {:induction false} MatchAdmits(ps: seq<Piece>, s: string)
    requires Matches(ps, s)
    ensures forall i | 0 <= i < |s| :: Admits(ps, s[i])
    decreases |ps|
  {
    if |ps| > 0 {
      var k :| 0 <= k <= |s| && MatchesCut(ps, s, k);
      MatchAdmits(ps[1..], s[k..]);
      forall i | 0 <= i < |s|
        ensures Admits(ps, s[i])
      {
        if i < k {
          assert s[..k][i] == s[i];
          assert InClass(ps[0].cls, s[i]);
        } else {
          assert s[k..][i - k] == s[i];
          var j :| 0 <= j < |ps[1..]| && InClass(ps[1..][j].cls, s[i]);
          assert ps[1..][j] == ps[j + 1];
        }
      }
    }
  }

  /** The length of a match lies between the sums of the pieces' bounds. */
  lemma {:induction false} MatchLength(ps: seq<Piece>, s: string)
    requires Matches(ps, s)
    ensures MinLength(ps) <= |s|
    ensures Bounded(ps) ==> |s| <= MaxLength(ps)
    decreases |ps|
  {
    if |ps| > 0 {
      var k :| 0 <= k <= |s| && MatchesCut(ps, s, k);
      MatchLength(ps[1..], s[k..]);
      if Bounded(ps) {
        assert Bounded(ps[1..]) by {
          forall j | 0 <= j < |ps[1..]| ensures ps[1..][j].max.Finite? {
            assert ps[1..][j] == ps[j + 1];
          }
        }
      }
    }
  }

  /** How many characters satisfying `p` a run of one class can hold. */
  lemma RunCount(cls: CharClass, t: string, p: char -> bool)
    requires AllIn(cls, t)
    ensures Within(cls, p) ==> CountWhere(t, p) == |t|
    ensures Disjoint(cls, p) ==> CountWhere(t, p) == 0
    decreases |t|
  {
    if t != [] {
      RunCount(cls, t[1..], p);
    }
  }

  /** The number of characters satisfying `p` in a match lies between the
      per-class sums `MinCount` and `MaxCount`. */
  lemma {:induction false} MatchCount(ps: seq<Piece>, s: string, p: char -> bool)
    requires Matches(ps, s)
    ensures MinCount(ps, p) <= CountWhere(s, p)
    ensures Bounded(ps) ==> CountWhere(s, p) <= MaxCount(ps, p)
    decreases |ps|
  {
    if |ps| > 0 {
      var k :| 0 <= k <= |s| && MatchesCut(ps, s, k);
      var head, tail := s[..k], s[k..];
      MatchCount(ps[1..], tail, p);
      RunCount(ps[0].cls, head, p);
      assert s == head + tail;
      CountWhereConcat(head, tail, p);
      var lo := if Within(ps[0].cls, p) then ps[0].min else 0;
      assert lo <= CountWhere(head, p);
      assert MinCount(ps, p) == lo + MinCount(ps[1..], p);
      if Bounded(ps) {
        assert Bounded(ps[1..]) by {
          forall j | 0 <= j < |ps[1..]| ensures ps[1..][j].max.Finite? {
            assert ps[1..][j] == ps[j + 1];
          }
        }
        var hi := if Disjoint(ps[0].cls, p) then 0 else ps[0].max.n;
        assert CountWhere(head, p) <= hi;
        assert MaxCount(ps, p) == hi + MaxCount(ps[1..], p);
      }
    }
  }
}
