/** Every tree that comes out of the grammar is fit for regexec: groups are closed, and numbered in the
    order in which they open, up to the number of groups read. */
module RegexShape {
  import opened RegexSemantics
  import opened RegexRecords
  import opened RegexGrammar
  import opened CStrings

  /** `plain` asks for the absence of back references as well. */
  predicate Fit(r: Regex, base: int, nsub: nat, plain: bool) {
    Formed(r, base, nsub) && (plain ==> NoBackref(r))
  }

  // What has been read, if it has groups beyond nsub nothing is claimed.
  predicate ParseFit(p: Parse, base: int, nsub: nat, plain: bool) {
    p.Done? && p.gid <= nsub ==> Fit(p.re, base, nsub, plain)
  }

  lemma FitLower(r: Regex, base: int, lower: int, nsub: nat, plain: bool)
    requires Fit(r, base, nsub, plain) && lower <= base
    ensures Fit(r, lower, nsub, plain)
  {
    FormedLower(r, base, lower, nsub);
  }

  lemma {:induction false} CopiesFit(acc: Partial, r: Regex, n: nat, base: int, nsub: nat, plain: bool)
    requires Fit(Whole(acc), base, nsub, plain) && Fit(r, base, nsub, plain)
    ensures Fit(Whole(Copies(acc, r, n)), base, nsub, plain)
    decreases n
  {
    if n > 0 {
      CopiesFit(acc, r, n - 1, base, nsub, plain);
    }
  }

  lemma BoundsFit(r: Regex, min: nat, max: int, base: int, nsub: nat, plain: bool)
    requires (max == -1 || min <= max) && Fit(r, base, nsub, plain)
    ensures Fit(BoundsTree(r, min, max), base, nsub, plain)
  {
    CopiesFit(Nothing, r, min, base, nsub, plain);
    if max != -1 {
      CopiesFit(Copies(Nothing, r, min), Alt(r, Empty), max - min, base, nsub, plain);
    }
  }

  lemma GroupFit(g: int, r: Regex, nsub: nat, plain: bool)
    requires Fit(r, g, nsub, plain) && g <= nsub
    ensures Fit(Group(g, Concat(r, Leaf(GroupEnd(g)))), g - 1, nsub, plain)
  {
    var end := Leaf(GroupEnd(g));
    assert NoBackref(end) && (plain ==> NoBackref(Concat(r, end)));
  }

  lemma {:induction false} BreAtomFit(pat: CString, pos: nat, gid: nat, depth: nat, nsub: nat)
    requires pos < |pat|
    ensures ParseFit(BreAtom(pat, pos, gid, depth), gid, nsub, false)
    decreases |pat| - pos, 0
  {
    hide Bre, Members;
    if pat[pos] == '\\' && At(pat, pos + 1) == '(' && depth < MAX_DEPTH {
      BreFit(pat, pos + 2, gid + 1, depth + 1, Nothing, gid + 1, nsub);
      var inner := Bre(pat, pos + 2, gid + 1, depth + 1, Nothing);
      if inner.Done? && inner.gid <= nsub {
        GroupFit(gid + 1, inner.re, nsub, false);
      }
    }
  }

  lemma {:induction false} BrePieceFit(pat: CString, pos: nat, gid: nat, depth: nat, nsub: nat)
    requires pos < |pat|
    ensures ParseFit(BrePiece(pat, pos, gid, depth), gid, nsub, false)
    decreases |pat| - pos, 1
  {
    hide BreAtom, BoundsAt, BoundsTree;
    BreAtomFit(pat, pos, gid, depth, nsub);
    var a := BreAtom(pat, pos, gid, depth);
    if a.Done? && a.gid <= nsub && At(pat, a.pos) == '\\' && At(pat, a.pos + 1) == '{' {
      var b := BoundsAt(pat, a.pos + 2, false);
      if b.Between? {
        BoundsFit(a.re, b.min, b.max, gid, nsub, false);
      }
    }
  }

  lemma {:induction false} BreFit(pat: CString, pos: nat, gid: nat, depth: nat, acc: Partial, base: nat, nsub: nat)
    requires pos <= |pat| && base <= gid && Fit(Whole(acc), base, nsub, false)
    ensures ParseFit(Bre(pat, pos, gid, depth, acc), base, nsub, false)
    decreases |pat| - pos, 2
  {
    hide BrePiece;
    if !BreEnds(pat, pos) {
      BrePieceFit(pat, pos, gid, depth, nsub);
      var p := BrePiece(pat, pos, gid, depth);
      if p.Done? && p.gid <= nsub {
        FitLower(p.re, gid, base, nsub, false);
        BreFit(pat, p.pos, p.gid, depth, Something(Then(acc, p.re)), base, nsub);
      }
    }
  }

  lemma {:induction false} EreAtomFit(pat: CString, pos: nat, gid: nat, depth: nat, nsub: nat)
    requires pos < |pat|
    ensures ParseFit(EreAtom(pat, pos, gid, depth), gid, nsub, true)
    decreases |pat| - pos, 0
  {
    hide Ere, Members;
    if pat[pos] == '(' && depth < MAX_DEPTH {
      EreFit(pat, pos + 1, gid + 1, depth + 1, Nothing, gid + 1, nsub);
      var inner := Ere(pat, pos + 1, gid + 1, depth + 1, Nothing);
      if inner.Done? && inner.gid <= nsub {
        GroupFit(gid + 1, inner.re, nsub, true);
      }
    }
  }

  lemma {:induction false} ErePieceFit(pat: CString, pos: nat, gid: nat, depth: nat, nsub: nat)
    requires pos < |pat|
    ensures ParseFit(ErePiece(pat, pos, gid, depth), gid, nsub, true)
    decreases |pat| - pos, 1
  {
    hide EreAtom, BoundsAt, BoundsTree;
    EreAtomFit(pat, pos, gid, depth, nsub);
    var a := EreAtom(pat, pos, gid, depth);
    if a.Done? && a.gid <= nsub {
      SignsFit(a.re, gid, nsub);
      if At(pat, a.pos) == '{' {
        var b := BoundsAt(pat, a.pos + 1, true);
        if b.Between? {
          BoundsFit(a.re, b.min, b.max, gid, nsub, true);
        }
      }
    }
  }

  lemma SignsFit(r: Regex, base: int, nsub: nat)
    requires Fit(r, base, nsub, true)
    ensures Fit(Star(r), base, nsub, true) && Fit(Concat(r, Star(r)), base, nsub, true)
    ensures Fit(Alt(r, Empty), base, nsub, true)
  {
    assert Fit(Star(r), base, nsub, true);
  }

  lemma {:induction false} EreBranchFit(pat: CString, pos: nat, gid: nat, depth: nat, acc: Partial, base: nat,
          nsub: nat)
    requires pos <= |pat| && base <= gid && Fit(Whole(acc), base, nsub, true)
    ensures ParseFit(EreBranch(pat, pos, gid, depth, acc), base, nsub, true)
    decreases |pat| - pos, 2
  {
    hide ErePiece;
    if !BranchEnds(pat, pos) {
      ErePieceFit(pat, pos, gid, depth, nsub);
      var p := ErePiece(pat, pos, gid, depth);
      if p.Done? && p.gid <= nsub {
        FitLower(p.re, gid, base, nsub, true);
        EreBranchFit(pat, p.pos, p.gid, depth, Something(Then(acc, p.re)), base, nsub);
      }
    }
  }

  lemma {:induction false} EreFit(pat: CString, pos: nat, gid: nat, depth: nat, acc: Partial, base: nat, nsub: nat)
    requires pos <= |pat| && base <= gid && Fit(Whole(acc), base, nsub, true)
    ensures ParseFit(Ere(pat, pos, gid, depth, acc), base, nsub, true)
    decreases |pat| - pos, 3
  {
    hide EreBranch;
    if !EreEnds(pat, pos) {
      EreBranchFit(pat, pos, gid, depth, Nothing, base, nsub);
      var b := EreBranch(pat, pos, gid, depth, Nothing);
      if b.Done? && b.gid <= nsub {
        var next := if At(pat, b.pos) == '|' then b.pos + 1 else b.pos;
        EreFit(pat, next, b.gid, depth, Something(OrElse(acc, b.re)), base, nsub);
      }
    }
  }

  /** Whatever regcomp accepts, regexec can run: groups closed and numbered from 1 to re_nsub, those inside
      others higher; and an extended expression never has back references. */
  lemma PatternFit(pat: CString, ere: bool)
    ensures var p := Pattern(pat, ere); p.Done? ==> Fit(p.re, 0, p.gid, ere)
  {
    hide Ere, Bre;
    var p := Pattern(pat, ere);
    if p.Done? {
      if ere {
        EreFit(pat, 0, 0, 0, Nothing, 0, p.gid);
      } else {
        BreFit(pat, 0, 0, 0, Nothing, 0, p.gid);
      }
    }
  }
}
