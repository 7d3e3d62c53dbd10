/** What bounded repetition means: exactly the powers between its bounds. */
module RegexBounds {
  import opened RegexSemantics
  import opened RegexGrammar

  /** `r` repeated between `min` and `max` times, without limit when max is -1. */
  ghost predicate Repeated(s: Subject, r: Regex, min: nat, max: int, i: nat, j: nat)
    requires i <= |s.text|
  {
    exists k: nat :: min <= k && (max == -1 || k <= max) && Power(s, r, k, i, j)
  }

  /** Powers compose. */
  lemma {:induction false} PowerAdd(s: Subject, r: Regex, a: nat, b: nat, i: nat, j: nat)
    requires i <= |s.text|
    ensures Power(s, r, a + b, i, j) <==> exists k: nat :: k <= |s.text| && Power(s, r, a, i, k) && Power(s, r, b, k, j)
    decreases a
  {
    hide Matches, Power;
    if Power(s, r, a + b, i, j) {
      var k := PowerSplit(s, r, a, b, i, j);
    }
    if k: nat :| k <= |s.text| && Power(s, r, a, i, k) && Power(s, r, b, k, j) {
      PowerJoin(s, r, a, b, i, k, j);
    }
  }

  lemma {:induction false} PowerSplit(s: Subject, r: Regex, a: nat, b: nat, i: nat, j: nat) returns (k: nat)
    requires i <= |s.text| && Power(s, r, a + b, i, j)
    ensures k <= |s.text| && Power(s, r, a, i, k) && Power(s, r, b, k, j)
    decreases a
  {
    hide Matches, Power;
    if a == 0 {
      PowerNone(s, r, i, i);
      k := i;
    } else {
      var m := PowerCut(s, r, a + b, i, j);
      k := PowerSplit(s, r, a - 1, b, m, j);
      PowerCons(s, r, a - 1, i, m, k);
    }
  }

  lemma {:induction false} PowerJoin(s: Subject, r: Regex, a: nat, b: nat, i: nat, k: nat, j: nat)
    requires i <= |s.text| && k <= |s.text| && Power(s, r, a, i, k) && Power(s, r, b, k, j)
    ensures Power(s, r, a + b, i, j)
    decreases a
  {
    hide Matches, Power;
    if a == 0 {
      PowerNone(s, r, i, k);
    } else {
      var m := PowerCut(s, r, a, i, k);
      PowerJoin(s, r, a - 1, b, m, k, j);
      PowerCons(s, r, a + b - 1, i, m, j);
    }
  }

  lemma PowerOne(s: Subject, r: Regex, i: nat, j: nat)
    requires i <= |s.text|
    ensures Power(s, r, 1, i, j) <==> Matches(s, r, i, j)
  {
    if Matches(s, r, i, j) {
      MatchSpan(s, r, i, j);
      PowerNone(s, r, j, j);
      PowerCons(s, r, 0, i, j, j);
    }
    if Power(s, r, 1, i, j) {
      var k := PowerCut(s, r, 1, i, j);
    }
  }

  /** The empty prefix matches nothing but the empty span. */
  ghost predicate PartialMatches(s: Subject, acc: Partial, i: nat, j: nat)
    requires i <= |s.text|
  {
    Matches(s, Whole(acc), i, j)
  }

  lemma ThenMeaning(s: Subject, acc: Partial, r: Regex, i: nat, j: nat)
    requires i <= |s.text|
    ensures Matches(s, Then(acc, r), i, j) <==>
            exists k: nat :: k <= |s.text| && PartialMatches(s, acc, i, k) && Matches(s, r, k, j)
  {
    if acc.Nothing? {
      if Matches(s, r, i, j) {
        assert PartialMatches(s, acc, i, i);
      }
    } else if Matches(s, Then(acc, r), i, j) {
      var k := ConcatCut(s, acc.re, r, i, j);
      assert PartialMatches(s, acc, i, k);
    } else if k: nat :| k <= |s.text| && PartialMatches(s, acc, i, k) && Matches(s, r, k, j) {
      ConcatJoin(s, acc.re, r, i, k, j);
    }
  }

  /** `n` copies behind `acc` match `acc` followed by the n-th power. */
  lemma CopiesMeaning(s: Subject, acc: Partial, r: Regex, n: nat, i: nat, j: nat)
    requires i <= |s.text|
    ensures PartialMatches(s, Copies(acc, r, n), i, j) <==>
            exists k: nat :: k <= |s.text| && PartialMatches(s, acc, i, k) && Power(s, r, n, k, j)
  {
    hide PartialMatches, Power, Copies;
    if PartialMatches(s, Copies(acc, r, n), i, j) {
      var k := CopiesCut(s, acc, r, n, i, j);
    }
    if k: nat :| k <= |s.text| && PartialMatches(s, acc, i, k) && Power(s, r, n, k, j) {
      CopiesJoin(s, acc, r, n, i, k, j);
    }
  }

  lemma {:induction false} CopiesCut(s: Subject, acc: Partial, r: Regex, n: nat, i: nat, j: nat) returns (k: nat)
    requires i <= |s.text| && PartialMatches(s, Copies(acc, r, n), i, j)
    ensures k <= |s.text| && PartialMatches(s, acc, i, k) && Power(s, r, n, k, j)
    decreases n
  {
    hide Matches, Power;
    if n == 0 {
      MatchSpan(s, Whole(acc), i, j);
      PowerNone(s, r, j, j);
      k := j;
    } else {
      var rest := Copies(acc, r, n - 1);
      ThenMeaning(s, rest, r, i, j);
      var m: nat :| m <= |s.text| && PartialMatches(s, rest, i, m) && Matches(s, r, m, j);
      k := CopiesCut(s, acc, r, n - 1, i, m);
      PowerOne(s, r, m, j);
      PowerJoin(s, r, n - 1, 1, k, m, j);
    }
  }

  lemma {:induction false} CopiesJoin(s: Subject, acc: Partial, r: Regex, n: nat, i: nat, k: nat, j: nat)
    requires i <= |s.text| && k <= |s.text| && PartialMatches(s, acc, i, k) && Power(s, r, n, k, j)
    ensures PartialMatches(s, Copies(acc, r, n), i, j)
    decreases n
  {
    hide Matches, Power;
    if n == 0 {
      PowerNone(s, r, k, j);
    } else {
      var m := PowerSplit(s, r, n - 1, 1, k, j);
      PowerOne(s, r, m, j);
      CopiesJoin(s, acc, r, n - 1, i, k, m);
      ThenMeaning(s, Copies(acc, r, n - 1), r, i, j);
    }
  }

  /** The copies that come first: exactly the n-th power. */
  lemma FrontMeaning(s: Subject, r: Regex, n: nat, i: nat, j: nat)
    requires i <= |s.text|
    ensures PartialMatches(s, Copies(Nothing, r, n), i, j) <==> Power(s, r, n, i, j)
  {
    CopiesMeaning(s, Nothing, r, n, i, j);
    assert PartialMatches(s, Nothing, i, i);
  }

  lemma AltMeaning(s: Subject, a: Regex, b: Regex, i: nat, j: nat)
    requires i <= |s.text|
    ensures Matches(s, Alt(a, b), i, j) <==> Matches(s, a, i, j) || Matches(s, b, i, j)
  {
  }

  lemma EmptyMeaning(s: Subject, i: nat, j: nat)
    requires i <= |s.text|
    ensures Matches(s, Empty, i, j) <==> i == j
  {
  }

  /** d optional copies: any number up to d. */
  lemma {:induction false} OptionalCut(s: Subject, r: Regex, d: nat, i: nat, j: nat) returns (e: nat)
    requires i <= |s.text| && Power(s, Alt(r, Empty), d, i, j)
    ensures e <= d && Power(s, r, e, i, j)
    decreases d
  {
    hide Matches, Power;
    PowerNone(s, r, i, j);
    PowerNone(s, Alt(r, Empty), i, j);
    if d == 0 {
      return 0;
    }
    var k := PowerCut(s, Alt(r, Empty), d, i, j);
    e := OptionalCut(s, r, d - 1, k, j);
    AltMeaning(s, r, Empty, i, k);
    EmptyMeaning(s, i, k);
    if Matches(s, r, i, k) {
      PowerCons(s, r, e, i, k, j);
      e := e + 1;
    }
  }

  lemma {:induction false} OptionalJoin(s: Subject, r: Regex, d: nat, e: nat, i: nat, j: nat)
    requires i <= |s.text| && e <= d && Power(s, r, e, i, j)
    ensures Power(s, Alt(r, Empty), d, i, j)
    decreases d
  {
    hide Matches, Power;
    PowerNone(s, r, i, j);
    PowerNone(s, Alt(r, Empty), i, j);
    if d > 0 {
      var k, e' := i, 0;
      if e > 0 {
        k := PowerCut(s, r, e, i, j);
        e' := e - 1;
      }
      AltMeaning(s, r, Empty, i, k);
      EmptyMeaning(s, i, k);
      OptionalJoin(s, r, d - 1, e', k, j);
      PowerCons(s, Alt(r, Empty), d - 1, i, k, j);
    }
  }

  /** apply_bounds denotes exactly the union of the admitted powers. */
  lemma BoundsMeaning(s: Subject, r: Regex, min: nat, max: int, i: nat, j: nat)
    requires i <= |s.text| && (max == -1 || min <= max)
    ensures Matches(s, BoundsTree(r, min, max), i, j) <==> Repeated(s, r, min, max, i, j)
  {
    hide Matches;
    if Matches(s, BoundsTree(r, min, max), i, j) {
      if max == -1 {
        var k := UnboundedCut(s, r, min, i, j);
      } else {
        var k := BoundedCut(s, r, min, max, i, j);
      }
    }
    if Repeated(s, r, min, max, i, j) {
      var k: nat :| min <= k && (max == -1 || k <= max) && Power(s, r, k, i, j);
      BoundsJoin(s, r, min, max, k, i, j);
    }
  }

  lemma UnboundedCut(s: Subject, r: Regex, min: nat, i: nat, j: nat) returns (n: nat)
    requires i <= |s.text| && Matches(s, BoundsTree(r, min, -1), i, j)
    ensures min <= n && Power(s, r, n, i, j)
  {
    hide Matches, Power;
    var front := Copies(Nothing, r, min);
    ThenMeaning(s, front, Star(r), i, j);
    var k: nat :| k <= |s.text| && PartialMatches(s, front, i, k) && Matches(s, Star(r), k, j);
    FrontMeaning(s, r, min, i, k);
    var m := StarCut(s, r, k, j);
    PowerJoin(s, r, min, m, i, k, j);
    n := min + m;
  }

  lemma BoundedCut(s: Subject, r: Regex, min: nat, max: nat, i: nat, j: nat) returns (n: nat)
    requires i <= |s.text| && min <= max && Matches(s, BoundsTree(r, min, max), i, j)
    ensures min <= n <= max && Power(s, r, n, i, j)
  {
    hide Matches, Power;
    var front := Copies(Nothing, r, min);
    CopiesMeaning(s, front, Alt(r, Empty), max - min, i, j);
    assert PartialMatches(s, Copies(front, Alt(r, Empty), max - min), i, j);
    var k: nat :| k <= |s.text| && PartialMatches(s, front, i, k) && Power(s, Alt(r, Empty), max - min, k, j);
    FrontMeaning(s, r, min, i, k);
    var m := OptionalCut(s, r, max - min, k, j);
    PowerJoin(s, r, min, m, i, k, j);
    n := min + m;
  }

  lemma BoundsJoin(s: Subject, r: Regex, min: nat, max: int, n: nat, i: nat, j: nat)
    requires i <= |s.text| && min <= n && (max == -1 || n <= max) && Power(s, r, n, i, j)
    ensures Matches(s, BoundsTree(r, min, max), i, j)
  {
    hide Matches, Power;
    var front := Copies(Nothing, r, min);
    var k := PowerSplit(s, r, min, n - min, i, j);
    FrontMeaning(s, r, min, i, k);
    if max == -1 {
      StarFrom(s, r, n - min, k, j);
      ThenMeaning(s, front, Star(r), i, j);
    } else {
      OptionalJoin(s, r, max - min, n - min, k, j);
      CopiesMeaning(s, front, Alt(r, Empty), max - min, i, j);
      assert PartialMatches(s, Copies(front, Alt(r, Empty), max - min), i, j);
    }
  }

  /** `r+`, as the extended grammar builds it, denotes one or more. */
  lemma PlusMeaning(s: Subject, r: Regex, i: nat, j: nat)
    requires i <= |s.text|
    ensures Matches(s, Concat(r, Star(r)), i, j) <==> Repeated(s, r, 1, -1, i, j)
  {
    assert Copies(Nothing, r, 1) == Something(r);
    BoundsMeaning(s, r, 1, -1, i, j);
  }
}
