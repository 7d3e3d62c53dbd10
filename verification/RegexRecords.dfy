/** What a match records for the groups of its expression, on the tree alone. */
module RegexRecords {
  import opened RegexSemantics

  // ---- trees with groups

  /** Every group ends right behind its body, is numbered above `base` and up to `nsub`, and the groups
      inside it are numbered above it. */
  predicate Formed(r: Regex, base: int, nsub: nat) {
    match r
    case Empty => true
    case Leaf(a) => !a.GroupEnd?
    case Concat(a, b) => Formed(a, base, nsub) && Formed(b, base, nsub)
    case Alt(a, b) => Formed(a, base, nsub) && Formed(b, base, nsub)
    case Star(b) => Formed(b, base, nsub)
    case Group(g, b) => base < g <= nsub && b.Concat? && b.right == Leaf(GroupEnd(g)) && Formed(b.left, g, nsub)
  }

  lemma {:induction false} FormedLower(r: Regex, base: int, lower: int, nsub: nat)
    requires Formed(r, base, nsub) && lower <= base
    ensures Formed(r, lower, nsub)
    decreases r
  {
    match r
    case Empty =>
    case Leaf(_) =>
    case Concat(a, b) => FormedLower(a, base, lower, nsub); FormedLower(b, base, lower, nsub);
    case Alt(a, b) => FormedLower(a, base, lower, nsub); FormedLower(b, base, lower, nsub);
    case Star(b) => FormedLower(b, base, lower, nsub);
    case Group(_, _) =>
  }

  /** Somewhere in `r` there is a group number `g` around `body`. */
  predicate Captures(r: Regex, g: int, body: Regex) {
    match r
    case Empty => false
    case Leaf(_) => false
    case Concat(a, b) => Captures(a, g, body) || Captures(b, g, body)
    case Alt(a, b) => Captures(a, g, body) || Captures(b, g, body)
    case Star(b) => Captures(b, g, body)
    case Group(h, b) => (h == g && b == Concat(body, Leaf(GroupEnd(g)))) || Captures(b, g, body)
  }

  lemma {:induction false} CapturesAbove(r: Regex, base: int, nsub: nat, g: int, body: Regex)
    requires Formed(r, base, nsub) && Captures(r, g, body)
    ensures base < g
    decreases r
  {
    match r
    case Concat(a, b) =>
      if Captures(a, g, body) { CapturesAbove(a, base, nsub, g, body); } else { CapturesAbove(b, base, nsub, g, body); }
    case Alt(a, b) =>
      if Captures(a, g, body) { CapturesAbove(a, base, nsub, g, body); } else { CapturesAbove(b, base, nsub, g, body); }
    case Star(b) => CapturesAbove(b, base, nsub, g, body);
    case Group(h, b) =>
      assert !Captures(b.right, g, body);
      if Captures(b.left, g, body) {
        CapturesAbove(b.left, h, nsub, g, body);
      }
  }

  // ---- what a match records

  // One recorded position.
  function Note(a: seq<int>, k: int, i: nat): (b: seq<int>)
    ensures |b| == |a|
  {
    if 0 <= k < |a| then a[k := i] else a
  }

  /** r matches from i to j, and on the way turns the recorded positions `a` into `b`: a group notes where it
      starts, and when its body has matched where it ends; a concatenation records one behind the other, an
      alternation what one side does, a star what its rounds do, and nothing else records. */
  ghost predicate Records(s: Subject, r: Regex, i: nat, a: seq<int>, j: nat, b: seq<int>)
    requires i <= |s.text|
    decreases r, 0
  {
    match r
    case Empty => i == j && a == b
    case Leaf(x) => AtomMatches(s, x, i, j) && a == b
    case Concat(u, v) =>
      exists k: nat, c: seq<int> :: k <= |s.text| && Records(s, u, i, a, k, c) && Records(s, v, k, c, j, b)
    case Alt(u, v) => Records(s, u, i, a, j, b) || Records(s, v, i, a, j, b)
    case Star(u) => exists n: nat :: Rounds(s, u, n, i, a, j, b)
    case Group(g, u) => exists c: seq<int> :: Records(s, u, i, Note(a, 2 * g, i), j, c) && b == Note(c, 2 * g + 1, j)
  }

  ghost predicate Rounds(s: Subject, r: Regex, n: nat, i: nat, a: seq<int>, j: nat, b: seq<int>)
    requires i <= |s.text|
    decreases r, n
  {
    if n == 0 then i == j && a == b
    else exists k: nat, c: seq<int> :: k <= |s.text| && Records(s, r, i, a, k, c) && Rounds(s, r, n - 1, k, c, j, b)
  }

  // ---- unfolding and building

  lemma ConcatRecorded(s: Subject, r: Regex, i: nat, a: seq<int>, j: nat, b: seq<int>) returns (k: nat, c: seq<int>)
    requires i <= |s.text| && r.Concat? && Records(s, r, i, a, j, b)
    ensures k <= |s.text| && Records(s, r.left, i, a, k, c) && Records(s, r.right, k, c, j, b)
  {
    k, c :| k <= |s.text| && Records(s, r.left, i, a, k, c) && Records(s, r.right, k, c, j, b);
  }

  lemma ConcatRecords(s: Subject, r: Regex, i: nat, a: seq<int>, k: nat, c: seq<int>, j: nat, b: seq<int>)
    requires i <= |s.text| && k <= |s.text| && r.Concat?
    requires Records(s, r.left, i, a, k, c) && Records(s, r.right, k, c, j, b)
    ensures Records(s, r, i, a, j, b)
  {
  }

  lemma RoundRecorded(s: Subject, r: Regex, n: nat, i: nat, a: seq<int>, j: nat, b: seq<int>)
    returns (k: nat, c: seq<int>)
    requires i <= |s.text| && n > 0 && Rounds(s, r, n, i, a, j, b)
    ensures k <= |s.text| && Records(s, r, i, a, k, c) && Rounds(s, r, n - 1, k, c, j, b)
  {
    k, c :| k <= |s.text| && Records(s, r, i, a, k, c) && Rounds(s, r, n - 1, k, c, j, b);
  }

  lemma RoundsNone(s: Subject, r: Regex, i: nat, a: seq<int>, j: nat, b: seq<int>)
    requires i <= |s.text|
    ensures Rounds(s, r, 0, i, a, j, b) <==> i == j && a == b
  {
  }

  lemma RoundsCons(s: Subject, r: Regex, n: nat, i: nat, a: seq<int>, k: nat, c: seq<int>, j: nat, b: seq<int>)
    requires i <= |s.text| && k <= |s.text| && Records(s, r, i, a, k, c) && Rounds(s, r, n, k, c, j, b)
    ensures Rounds(s, r, n + 1, i, a, j, b)
  {
  }

  /** One more round before those of a star. */
  lemma StarRecords(s: Subject, u: Regex, i: nat, a: seq<int>, k: nat, c: seq<int>, j: nat, b: seq<int>)
    requires i <= |s.text| && k <= |s.text| && Records(s, u, i, a, k, c) && Records(s, Star(u), k, c, j, b)
    ensures Records(s, Star(u), i, a, j, b)
  {
    var n: nat :| Rounds(s, u, n, k, c, j, b);
    RoundsCons(s, u, n, i, a, k, c, j, b);
  }

  lemma StarRecordsNone(s: Subject, u: Regex, i: nat, a: seq<int>)
    requires i <= |s.text|
    ensures Records(s, Star(u), i, a, i, a)
  {
    RoundsNone(s, u, i, a, i, a);
  }

  lemma AltRecords(s: Subject, r: Regex, i: nat, a: seq<int>, j: nat, b: seq<int>)
    requires i <= |s.text| && r.Alt? && (Records(s, r.left, i, a, j, b) || Records(s, r.right, i, a, j, b))
    ensures Records(s, r, i, a, j, b)
  {
  }

  /** A group, by what its body records. */
  lemma GroupRecords(s: Subject, r: Regex, base: int, nsub: nat, i: nat, a: seq<int>, j: nat, c: seq<int>, b: seq<int>)
    requires i <= j <= |s.text| && r.Group? && Formed(r, base, nsub)
    requires Records(s, r.body.left, i, Note(a, 2 * r.gid, i), j, c)
    requires b == Note(c, 2 * r.gid + 1, j)
    ensures Records(s, r, i, a, j, b)
  {
    hide Note;
    assert Records(s, r.body.right, j, c, j, c);
    ConcatRecords(s, r.body, i, Note(a, 2 * r.gid, i), j, c, j, c);
  }

  // ---- matches and what they record

  /** Whatever records matches. */
  lemma {:induction false} RecordsMatch(s: Subject, r: Regex, i: nat, a: seq<int>, j: nat, b: seq<int>)
    requires i <= |s.text| && Records(s, r, i, a, j, b)
    ensures Matches(s, r, i, j) && i <= j <= |s.text| && |a| == |b|
    decreases r, 0, 0
  {
    match r
    case Empty =>
    case Leaf(_) =>
    case Concat(u, v) =>
      var k, c := ConcatRecorded(s, r, i, a, j, b);
      RecordsMatch(s, u, i, a, k, c);
      RecordsMatch(s, v, k, c, j, b);
    case Alt(u, v) =>
      if Records(s, u, i, a, j, b) {
        RecordsMatch(s, u, i, a, j, b);
      } else {
        RecordsMatch(s, v, i, a, j, b);
      }
    case Star(u) =>
      var n: nat :| Rounds(s, u, n, i, a, j, b);
      RoundsMatch(s, u, n, i, a, j, b);
      StarFrom(s, u, n, i, j);
    case Group(g, u) =>
      var c: seq<int> :| Records(s, u, i, Note(a, 2 * g, i), j, c) && b == Note(c, 2 * g + 1, j);
      RecordsMatch(s, u, i, Note(a, 2 * g, i), j, c);
  }

  lemma {:induction false} RoundsMatch(s: Subject, r: Regex, n: nat, i: nat, a: seq<int>, j: nat, b: seq<int>)
    requires i <= |s.text| && Rounds(s, r, n, i, a, j, b)
    ensures Power(s, r, n, i, j) && i <= j <= |s.text| && |a| == |b|
    decreases r, 1, n
  {
    hide Records, Rounds, Matches, Power;
    RoundsNone(s, r, i, a, j, b);
    PowerNone(s, r, i, j);
    if n > 0 {
      var k, c := RoundRecorded(s, r, n, i, a, j, b);
      RecordsMatch(s, r, i, a, k, c);
      RoundsMatch(s, r, n - 1, k, c, j, b);
      PowerCons(s, r, n - 1, i, k, j);
    }
  }

  /** And every match records something. */
  lemma {:induction false} MatchRecords(s: Subject, r: Regex, i: nat, a: seq<int>, j: nat) returns (b: seq<int>)
    requires i <= |s.text| && Matches(s, r, i, j)
    ensures Records(s, r, i, a, j, b)
    decreases r, 0, 0
  {
    match r
    case Empty => b := a;
    case Leaf(_) => b := a;
    case Concat(u, v) =>
      var k := ConcatCut(s, u, v, i, j);
      var c := MatchRecords(s, u, i, a, k);
      b := MatchRecords(s, v, k, c, j);
      ConcatRecords(s, r, i, a, k, c, j, b);
    case Alt(u, v) =>
      if Matches(s, u, i, j) {
        b := MatchRecords(s, u, i, a, j);
      } else {
        b := MatchRecords(s, v, i, a, j);
      }
    case Star(u) =>
      var n := StarCut(s, u, i, j);
      b := PowerRecords(s, u, n, i, a, j);
    case Group(g, u) =>
      var c := MatchRecords(s, u, i, Note(a, 2 * g, i), j);
      b := Note(c, 2 * g + 1, j);
  }

  lemma {:induction false} PowerRecords(s: Subject, r: Regex, n: nat, i: nat, a: seq<int>, j: nat)
    returns (b: seq<int>)
    requires i <= |s.text| && Power(s, r, n, i, j)
    ensures Rounds(s, r, n, i, a, j, b)
    decreases r, 1, n
  {
    hide Records, Rounds, Matches, Power;
    PowerNone(s, r, i, j);
    RoundsNone(s, r, i, a, j, a);
    if n == 0 {
      b := a;
    } else {
      var k := PowerCut(s, r, n, i, j);
      var c := MatchRecords(s, r, i, a, k);
      b := PowerRecords(s, r, n - 1, k, c, j);
      RoundsCons(s, r, n - 1, i, a, k, c, j, b);
    }
  }

  // ---- each recorded pair is a match of its group

  /** The body of some group number `g` of `r` matches from `so` to `eo`. */
  ghost predicate Captured(s: Subject, r: Regex, g: int, so: int, eo: int) {
    0 <= so <= eo <= |s.text| && exists body :: Captures(r, g, body) && Matches(s, body, so, eo)
  }

  /** Between a and b every pair stayed as it was, or became a match of its group between i and j. */
  ghost predicate Recorded(s: Subject, r: Regex, nsub: nat, i: nat, a: seq<int>, j: nat, b: seq<int>) {
    && |a| == |b| == 2 * (nsub + 1)
    && forall g {:trigger Captured(s, r, g, b[2 * g], b[2 * g + 1])} {:trigger b[2 * g]} | 0 <= g <= nsub ::
         || (b[2 * g] == a[2 * g] && b[2 * g + 1] == a[2 * g + 1])
         || (i <= b[2 * g] && b[2 * g + 1] <= j && Captured(s, r, g, b[2 * g], b[2 * g + 1]))
  }

  lemma CapturedIn(s: Subject, sub: Regex, r: Regex, g: int, so: int, eo: int)
    requires Captured(s, sub, g, so, eo) && forall body | Captures(sub, g, body) :: Captures(r, g, body)
    ensures Captured(s, r, g, so, eo)
  {
    hide Matches, Captures;
    var body :| Captures(sub, g, body) && Matches(s, body, so, eo);
  }

  lemma RecordedSame(s: Subject, r: Regex, nsub: nat, i: nat, a: seq<int>, j: nat)
    requires |a| == 2 * (nsub + 1)
    ensures Recorded(s, r, nsub, i, a, j, a)
  {
  }

  /** Two stretches of a run one after the other. */
  lemma RecordedJoin(s: Subject, u: Regex, v: Regex, r: Regex, nsub: nat, i: nat, a: seq<int>, k: nat, c: seq<int>,
          j: nat, b: seq<int>)
    requires i <= k <= j && Recorded(s, u, nsub, i, a, k, c) && Recorded(s, v, nsub, k, c, j, b)
    requires forall g, body | Captures(u, g, body) || Captures(v, g, body) :: Captures(r, g, body)
    ensures Recorded(s, r, nsub, i, a, j, b)
  {
    hide Captured, Captures;
    forall g | 0 <= g <= nsub
      ensures || (b[2 * g] == a[2 * g] && b[2 * g + 1] == a[2 * g + 1])
              || (i <= b[2 * g] && b[2 * g + 1] <= j && Captured(s, r, g, b[2 * g], b[2 * g + 1]))
    {
      if Captured(s, v, g, b[2 * g], b[2 * g + 1]) {
        CapturedIn(s, v, r, g, b[2 * g], b[2 * g + 1]);
      }
      if Captured(s, u, g, c[2 * g], c[2 * g + 1]) {
        CapturedIn(s, u, r, g, c[2 * g], c[2 * g + 1]);
      }
    }
  }

  lemma RecordedSub(s: Subject, u: Regex, r: Regex, nsub: nat, i: nat, a: seq<int>, j: nat, b: seq<int>)
    requires Recorded(s, u, nsub, i, a, j, b) && i <= j
    requires forall g, body | Captures(u, g, body) :: Captures(r, g, body)
    ensures Recorded(s, r, nsub, i, a, j, b)
  {
    RecordedSame(s, u, nsub, j, b, j);
    RecordedJoin(s, u, u, r, nsub, i, a, j, b, j, b);
  }

  // The pair of a group around what was recorded inside.
  lemma GroupRecorded(s: Subject, r: Regex, base: int, nsub: nat, i: nat, a: seq<int>, a': seq<int>, j: nat,
          c: seq<int>, b: seq<int>)
    requires r.Group? && Formed(r, base, nsub) && 0 <= base && i <= j <= |s.text| && |a| == 2 * (nsub + 1)
    requires a' == a[2 * r.gid := i] && Recorded(s, r.body.left, nsub, i, a', j, c)
    requires |c| == |a| && b == c[2 * r.gid + 1 := j] && Matches(s, r.body.left, i, j)
    ensures Recorded(s, r, nsub, i, a, j, b)
  {
    hide Matches, Captured;
    var g, body := r.gid, r.body.left;
    OwnPair(s, r, base, nsub, i, a', j, c);
    assert Captures(r, g, body);
    assert Captured(s, r, g, i, j) by {
      GroupCaptured(s, r, g, body, i, j);
    }
    forall h | 0 <= h <= nsub
      ensures || (b[2 * h] == a[2 * h] && b[2 * h + 1] == a[2 * h + 1])
              || (i <= b[2 * h] && b[2 * h + 1] <= j && Captured(s, r, h, b[2 * h], b[2 * h + 1]))
    {
      if h != g && Captured(s, body, h, c[2 * h], c[2 * h + 1]) {
        CapturedIn(s, body, r, h, c[2 * h], c[2 * h + 1]);
      }
    }
  }

  lemma GroupCaptured(s: Subject, r: Regex, g: int, body: Regex, i: nat, j: nat)
    requires Captures(r, g, body) && i <= j <= |s.text| && Matches(s, body, i, j)
    ensures Captured(s, r, g, i, j)
  {
  }

  // Inside a group its own pair is left alone.
  lemma OwnPair(s: Subject, r: Regex, base: int, nsub: nat, i: nat, a: seq<int>, j: nat, c: seq<int>)
    requires r.Group? && Formed(r, base, nsub) && 0 <= base && Recorded(s, r.body.left, nsub, i, a, j, c)
    ensures c[2 * r.gid] == a[2 * r.gid] && c[2 * r.gid + 1] == a[2 * r.gid + 1]
  {
    hide Matches;
    var g, body := r.gid, r.body.left;
    if Captured(s, body, g, c[2 * g], c[2 * g + 1]) {
      var inner :| Captures(body, g, inner) && Matches(s, inner, c[2 * g], c[2 * g + 1]);
      CapturesAbove(body, g, nsub, g, inner);
    }
  }

  /** Whatever is recorded is what was there before or a match of its group, within the match. */
  lemma {:induction false} RecordsAreMatches(s: Subject, r: Regex, base: int, nsub: nat, i: nat, a: seq<int>, j: nat,
          b: seq<int>)
    requires i <= |s.text| && Formed(r, base, nsub) && 0 <= base && |a| == 2 * (nsub + 1) && Records(s, r, i, a, j, b)
    ensures Recorded(s, r, nsub, i, a, j, b)
    decreases r, 0, 1
  {
    hide Recorded, Captures, Captured;
    RecordsMatch(s, r, i, a, j, b);
    match r
    case Empty => RecordedSame(s, r, nsub, i, a, j);
    case Leaf(_) => RecordedSame(s, r, nsub, i, a, j);
    case Concat(u, v) =>
      var k, c := ConcatRecorded(s, r, i, a, j, b);
      RecordsMatch(s, u, i, a, k, c);
      RecordsMatch(s, v, k, c, j, b);
      RecordsAreMatches(s, u, base, nsub, i, a, k, c);
      RecordsAreMatches(s, v, base, nsub, k, c, j, b);
      PartsCapture(r);
      RecordedJoin(s, u, v, r, nsub, i, a, k, c, j, b);
    case Alt(u, v) =>
      PartsCapture(r);
      if Records(s, u, i, a, j, b) {
        RecordsAreMatches(s, u, base, nsub, i, a, j, b);
        RecordedSub(s, u, r, nsub, i, a, j, b);
      } else {
        RecordsAreMatches(s, v, base, nsub, i, a, j, b);
        RecordedSub(s, v, r, nsub, i, a, j, b);
      }
    case Star(u) =>
      var n: nat :| Rounds(s, u, n, i, a, j, b);
      PartsCapture(r);
      RoundsAreMatches(s, u, base, nsub, n, i, a, j, b);
      RecordedSub(s, u, r, nsub, i, a, j, b);
    case Group(g, u) => GroupIsMatch(s, r, base, nsub, i, a, j, b);
  }

  lemma PartsCapture(r: Regex)
    ensures r.Concat? || r.Alt? ==>
      forall g, body | Captures(r.left, g, body) || Captures(r.right, g, body) :: Captures(r, g, body)
    ensures r.Star? ==> forall g, body | Captures(r.body, g, body) :: Captures(r, g, body)
  {
  }

  lemma {:induction false} RoundsAreMatches(s: Subject, r: Regex, base: int, nsub: nat, n: nat, i: nat, a: seq<int>,
          j: nat, b: seq<int>)
    requires i <= |s.text| && Formed(r, base, nsub) && 0 <= base && |a| == 2 * (nsub + 1) && Rounds(s, r, n, i, a, j, b)
    ensures Recorded(s, r, nsub, i, a, j, b)
    decreases r, 1, n
  {
    hide Records, Rounds, Recorded, Captures, Captured;
    RoundsNone(s, r, i, a, j, b);
    if n == 0 {
      RecordedSame(s, r, nsub, i, a, j);
    } else {
      var k, c := RoundRecorded(s, r, n, i, a, j, b);
      RecordsMatch(s, r, i, a, k, c);
      RoundsMatch(s, r, n - 1, k, c, j, b);
      RecordsAreMatches(s, r, base, nsub, i, a, k, c);
      RoundsAreMatches(s, r, base, nsub, n - 1, k, c, j, b);
      RecordedJoin(s, r, r, r, nsub, i, a, k, c, j, b);
    }
  }

  lemma {:induction false} GroupIsMatch(s: Subject, r: Regex, base: int, nsub: nat, i: nat, a: seq<int>, j: nat,
          b: seq<int>)
    requires i <= |s.text| && Formed(r, base, nsub) && 0 <= base && |a| == 2 * (nsub + 1) && Records(s, r, i, a, j, b)
    requires r.Group?
    ensures Recorded(s, r, nsub, i, a, j, b)
    decreases r, 0, 0
  {
    hide Recorded, Captures, Captured, Matches;
    var g := r.gid;
    var a' := Note(a, 2 * g, i);
    var c: seq<int> :| Records(s, r.body, i, a', j, c) && b == Note(c, 2 * g + 1, j);
    var k, d := ConcatRecorded(s, r.body, i, a', j, c);
    assert k == j && d == c;
    RecordsMatch(s, r.body.left, i, a', j, c);
    RecordsAreMatches(s, r.body.left, g, nsub, i, a', j, c);
    GroupRecorded(s, r, base, nsub, i, a, a', j, c, b);
  }

  // ---- groups that are always recorded

  /** Group number g is under no alternative and no star: every match goes through it. */
  predicate Certain(r: Regex, g: int) {
    match r
    case Empty => false
    case Leaf(_) => false
    case Concat(u, v) => Certain(u, g) || Certain(v, g)
    case Alt(_, _) => false
    case Star(_) => false
    case Group(h, u) => h == g || Certain(u, g)
  }

  /** Its pair is set, within the match. */
  lemma {:induction false} CertainRecorded(s: Subject, r: Regex, base: int, nsub: nat, g: nat, i: nat, a: seq<int>,
          j: nat, b: seq<int>)
    requires i <= |s.text| && Formed(r, base, nsub) && 0 <= base && |a| == 2 * (nsub + 1) && Records(s, r, i, a, j, b)
    requires Certain(r, g) && g <= nsub
    ensures |b| == |a| && i <= b[2 * g] <= b[2 * g + 1] <= j
    decreases r
  {
    hide Captured, Matches;
    RecordsMatch(s, r, i, a, j, b);
    match r
    case Concat(u, v) =>
      var k, c := ConcatRecorded(s, r, i, a, j, b);
      RecordsMatch(s, u, i, a, k, c);
      RecordsMatch(s, v, k, c, j, b);
      if Certain(v, g) {
        CertainRecorded(s, v, base, nsub, g, k, c, j, b);
      } else {
        CertainRecorded(s, u, base, nsub, g, i, a, k, c);
        RecordsAreMatches(s, v, base, nsub, k, c, j, b);
        PairWithin(s, v, nsub, g, k, c, j, b);
      }
    case Group(h, u) =>
      var a' := Note(a, 2 * h, i);
      var c: seq<int> :| Records(s, u, i, a', j, c) && b == Note(c, 2 * h + 1, j);
      var k, d := ConcatRecorded(s, u, i, a', j, c);
      RecordsAreMatches(s, u.left, h, nsub, i, a', j, c);
      OwnPair(s, r, base, nsub, i, a', j, c);
      if g != h {
        assert !Certain(u.right, g);
        CertainRecorded(s, u.left, h, nsub, g, i, a', j, c);
      }
  }

  // A pair that is kept, or is a match.
  lemma PairWithin(s: Subject, r: Regex, nsub: nat, g: nat, i: nat, a: seq<int>, j: nat, b: seq<int>)
    requires Recorded(s, r, nsub, i, a, j, b) && g <= nsub
    ensures (b[2 * g] == a[2 * g] && b[2 * g + 1] == a[2 * g + 1]) || i <= b[2 * g] <= b[2 * g + 1] <= j
  {
    hide Matches, Captures;
    assert || (b[2 * g] == a[2 * g] && b[2 * g + 1] == a[2 * g + 1])
           || (i <= b[2 * g] && b[2 * g + 1] <= j && Captured(s, r, g, b[2 * g], b[2 * g + 1]));
  }
}
