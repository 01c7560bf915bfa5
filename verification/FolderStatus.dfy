/**
 What a pair of include and exclude lists means for every path, by the two algorithms the
 source uses: the tree model recurses to the parent, the scanner compares longest matches.
 */
module FolderStatus {
  import opened FolderPaths

  datatype Lists = Lists(included: set<Path>, excluded: set<Path>)

  datatype InclusionState =
    StateNone | StateIncluded | StateExcluded | StateIncludeInherited | StateExcludeInherited

  /** `inclusionState`, with `[]` for the empty parent of a top-level folder. */
  function StateOf(l: Lists, p: seq<Name>): InclusionState
    decreases |p|
  {
    if p == [] then StateNone
    else if p in l.included then StateIncluded
    else if p in l.excluded then StateExcluded
    else match StateOf(l, p[..|p| - 1])
      case StateNone => StateNone
      case StateIncluded => StateIncludeInherited
      case StateIncludeInherited => StateIncludeInherited
      case _ => StateExcludeInherited
  }

  /** `p` is not listed itself, and the nearest listed folder above it is `p[..j]`. */
  ghost predicate NearestAbove(l: Lists, p: seq<Name>, j: nat) {
    && 0 < j < |p| && (p[..j] in l.included || p[..j] in l.excluded)
    && forall i :: j < i <= |p| ==> p[..i] !in l.included && p[..i] !in l.excluded
  }

  /** The state is that of the path's own entry, or inherited from the nearest listed folder above. */
  lemma {:induction false} StateExactly(l: Lists, p: Path)
    ensures StateOf(l, p) == StateIncluded <==> p in l.included
    ensures StateOf(l, p) == StateExcluded <==> p in l.excluded && p !in l.included
    ensures StateOf(l, p) == StateNone <==> forall i :: 0 < i <= |p| ==> p[..i] !in l.included && p[..i] !in l.excluded
    ensures StateOf(l, p) == StateIncludeInherited <==> exists j: nat :: NearestAbove(l, p, j) && p[..j] in l.included
    ensures StateOf(l, p) == StateExcludeInherited <==> exists j: nat :: NearestAbove(l, p, j) && p[..j] !in l.included
    decreases |p|
  {
    assert p[..|p|] == p;
    if p !in l.included && p !in l.excluded && |p| > 1 {
      StateExactly(l, Parent(p));
      StateFromParent(l, p);
      NothingAbove(l, p);
      NearestIncluded(l, p, true);
      NearestIncluded(l, p, false);
      hide StateOf, NearestAbove;
    }
  }

  lemma StateFromParent(l: Lists, p: Path)
    requires |p| > 1 && p !in l.included && p !in l.excluded
    ensures StateOf(l, p) == match StateOf(l, Parent(p))
                             case StateNone => StateNone
                             case StateIncluded => StateIncludeInherited
                             case StateIncludeInherited => StateIncludeInherited
                             case _ => StateExcludeInherited
  {
  }

  lemma NothingAbove(l: Lists, p: Path)
    requires |p| > 1 && p !in l.included && p !in l.excluded
    ensures (forall i :: 0 < i <= |p| ==> p[..i] !in l.included && p[..i] !in l.excluded) <==>
            (forall i :: 0 < i <= |Parent(p)| ==> Parent(p)[..i] !in l.included && Parent(p)[..i] !in l.excluded)
  {
    assert p[..|p|] == p;
    assert forall i :: 0 <= i < |p| ==> p[..i] == Parent(p)[..i];
  }

  /** The nearest listed folder above `p` is its parent or the nearest one above that. */
  lemma NearestIncluded(l: Lists, p: Path, included: bool)
    requires |p| > 1 && p !in l.included && p !in l.excluded
    ensures (exists j: nat :: NearestAbove(l, p, j) && (p[..j] in l.included) == included) <==>
            if Parent(p) in l.included || Parent(p) in l.excluded then (Parent(p) in l.included) == included
            else exists j: nat :: NearestAbove(l, Parent(p), j) && (Parent(p)[..j] in l.included) == included
  {
    var q := Parent(p);
    forall j: nat
      ensures NearestAbove(l, p, j) <==>
              if j == |p| - 1 then q in l.included || q in l.excluded else NearestAbove(l, q, j)
      ensures j < |p| - 1 ==> p[..j] == q[..j]
    {
      NearestFromParent(l, p, j);
    }
    hide NearestAbove;
    if q in l.included || q in l.excluded {
      ListedParentIsNearest(l, p);
    } else if j: nat :| NearestAbove(l, q, j) && (q[..j] in l.included) == included {
      NearestIsAbove(l, q, j);
      assert NearestAbove(l, p, j);
    }
    if j: nat :| NearestAbove(l, p, j) && (p[..j] in l.included) == included {
      NearestIsAbove(l, p, j);
      assert j != |p| - 1 ==> NearestAbove(l, q, j) && p[..j] == q[..j];
    }
  }

  lemma NearestIsAbove(l: Lists, p: seq<Name>, j: nat)
    requires NearestAbove(l, p, j)
    ensures 0 < j < |p|
  {
  }

  /** A listed parent hides everything above it. */
  lemma ListedParentIsNearest(l: Lists, p: Path)
    requires |p| > 1 && p !in l.included && p !in l.excluded && (Parent(p) in l.included || Parent(p) in l.excluded)
    ensures forall j: nat :: NearestAbove(l, p, j) <==> j == |p| - 1
  {
    assert p[..|p|] == p;
  }

  lemma NearestFromParent(l: Lists, p: Path, j: nat)
    requires |p| > 1 && p !in l.included && p !in l.excluded
    ensures NearestAbove(l, p, j) <==>
            if j == |p| - 1 then Parent(p) in l.included || Parent(p) in l.excluded
            else NearestAbove(l, Parent(p), j)
    ensures j < |p| - 1 ==> p[..j] == Parent(p)[..j]
  {
    assert p[..|p|] == p;
    assert forall i :: 0 <= i < |p| ==> p[..i] == Parent(p)[..i];
  }

  /** Whether the model counts the path as part of the backup. */
  predicate Included(l: Lists, p: seq<Name>) {
    StateOf(l, p) in {StateIncluded, StateIncludeInherited}
  }

  /** Every exclusion is an exception to an inclusion and the other way round. */
  ghost predicate NormalForm(l: Lists) {
    && (forall e :: e in l.excluded ==> Included(l, Parent(e)))
    && (forall i :: i in l.included ==> !Included(l, Parent(i)))
  }

  // ------------------------------------------------- the model's operations

  /** `removeSubDirs`. */
  function Cleared(l: Lists, p: Path): Lists {
    Lists(set q | q in l.included && !Covers(p, q), set q | q in l.excluded && !Covers(p, q))
  }

  /** `includePath`. */
  function AfterInclude(l: Lists, p: Path): Lists {
    var state := StateOf(l, p);
    if state == StateIncluded then l
    else if state in {StateNone, StateExcludeInherited} then Cleared(l, p).(included := Cleared(l, p).included + {p})
    else Cleared(l, p)
  }

  /** `excludePath`. */
  function AfterExclude(l: Lists, p: Path): Lists {
    var state := StateOf(l, p);
    if state == StateExcluded then l
    else if state == StateIncludeInherited then Cleared(l, p).(excluded := Cleared(l, p).excluded + {p})
    else Cleared(l, p)
  }

  /** `setData`, which treats every change of a check box as a toggle. */
  function AfterToggle(l: Lists, p: Path): Lists {
    if Included(l, p) then AfterExclude(l, p) else AfterInclude(l, p)
  }

  // ---------------------------------------------------------- the toggle law

  /** Two pairs of lists list the same paths outside `p`, and only `p` itself at or below it. */
  ghost predicate OnlyAt(l: Lists, l': Lists, p: Path) {
    forall q: Path ::
      if p <= q then q != p ==> q !in l'.included && q !in l'.excluded
      else (q in l'.included <==> q in l.included) && (q in l'.excluded <==> q in l.excluded)
  }

  lemma ClearedOnlyAt(l: Lists, p: Path)
    ensures OnlyAt(l, Cleared(l, p), p)
    ensures p !in Cleared(l, p).included && p !in Cleared(l, p).excluded
  {
    hide Covers;
    forall q: Path
      ensures Covers(p, q) <==> p <= q
    {
      CoversIsPrefix(p, q);
    }
  }

  lemma {:induction false} OutsideUnchanged(l: Lists, l': Lists, p: Path, q: seq<Name>)
    requires OnlyAt(l, l', p) && !(p <= q)
    ensures StateOf(l', q) == StateOf(l, q)
    decreases |q|
  {
    if q != [] {
      assert q == q[..|q| - 1] + [q[|q| - 1]];
      OutsideUnchanged(l, l', p, q[..|q| - 1]);
    }
  }

  lemma {:induction false} BelowInherits(l: Lists, l': Lists, p: Path, q: Path)
    requires OnlyAt(l, l', p) && p <= q
    ensures Included(l', q) == Included(l', p)
    decreases |q|
  {
    if q != p {
      assert p <= Parent(q);
      BelowInherits(l, l', p, Parent(q));
    }
  }

  /** Everything at or below `p` has the given status, everything else the one it had. */
  ghost predicate TookEffect(l: Lists, l': Lists, p: Path, status: bool) {
    forall q: Path :: Included(l', q) == if p <= q then status else Included(l, q)
  }

  lemma EffectFromTop(l: Lists, l': Lists, p: Path, status: bool)
    requires OnlyAt(l, l', p) && Included(l', p) == status
    ensures TookEffect(l, l', p, status)
  {
    forall q: Path
      ensures Included(l', q) == if p <= q then status else Included(l, q)
    {
      if p <= q {
        BelowInherits(l, l', p, q);
      } else {
        OutsideUnchanged(l, l', p, q);
      }
    }
  }

  lemma NormalFormKept(l: Lists, l': Lists, p: Path)
    requires NormalForm(l) && OnlyAt(l, l', p)
    requires p in l'.excluded ==> Included(l, Parent(p))
    requires p in l'.included ==> !Included(l, Parent(p))
    ensures NormalForm(l')
  {
    forall q: Path | q in l'.included || q in l'.excluded
      ensures Included(l', Parent(q)) == Included(l, Parent(q))
    {
      assert p <= q ==> q == p;
      assert !(p <= Parent(q));
      OutsideUnchanged(l, l', p, Parent(q));
    }
  }

  lemma ParentState(l: Lists, p: Path)
    ensures StateOf(l, p) in {StateIncludeInherited} ==> Included(l, Parent(p))
    ensures StateOf(l, p) in {StateNone, StateExcludeInherited} ==> !Included(l, Parent(p))
    ensures p !in l.included && p !in l.excluded ==> Included(l, p) == Included(l, Parent(p))
  {
  }

  /** Clearing leaves `p` to its parent, and the parent to itself. */
  lemma ParentKept(l: Lists, l': Lists, p: Path)
    requires OnlyAt(l, l', p)
    ensures Included(l', Parent(p)) == Included(l, Parent(p))
  {
    OutsideUnchanged(l, l', p, Parent(p));
  }

  /** Every path at or below `p` listed as an exception is listed the other way as well. */
  ghost predicate NoExclusionBelow(l: Lists, p: Path) {
    forall q: Path :: q in l.excluded && Covers(p, q) ==> q in l.included
  }

  ghost predicate NoInclusionBelow(l: Lists, p: Path) {
    forall q: Path :: q in l.included ==> !Covers(p, q)
  }

  /**
   Exactly when `includePath` does what it is asked, for any lists at all. A path listed as
   included is left alone with the exceptions below it; one listed as excluded is only struck
   off the list, which includes it if its parent is included.
   */
  lemma IncludeExactly(l: Lists, p: Path)
    ensures TookEffect(l, AfterInclude(l, p), p, true) <==>
            && (p in l.included ==> NoExclusionBelow(l, p))
            && (p in l.excluded && p !in l.included ==> Included(l, Parent(p)))
  {
    if p in l.included {
      if NoExclusionBelow(l, p) {
        forall q: Path | p <= q
          ensures Included(l, q)
        {
          NoExceptions(l, p, q);
        }
      } else {
        var q: Path :| q in l.excluded && Covers(p, q) && q !in l.included;
        CoversIsPrefix(p, q);
        assert !Included(l, q);
      }
    } else {
      var l' := AfterInclude(l, p);
      ClearedOnlyAt(l, p);
      ParentState(l, p);
      ParentState(l', p);
      ParentKept(l, l', p);
      EffectFromTop(l, l', p, Included(l', p));
    }
  }

  lemma {:induction false} NoExceptions(l: Lists, p: Path, q: Path)
    requires p in l.included && p <= q && NoExclusionBelow(l, p)
    ensures Included(l, q)
    decreases |q|
  {
    if q != p {
      assert p <= Parent(q);
      NoExceptions(l, p, Parent(q));
      CoversIsPrefix(p, q);
    }
  }

  /** The same for `excludePath`, which takes a path off the list of included ones. */
  lemma ExcludeExactly(l: Lists, p: Path)
    ensures TookEffect(l, AfterExclude(l, p), p, false) <==>
            && (p in l.included ==> !Included(l, Parent(p)))
            && (p in l.excluded && p !in l.included ==> NoInclusionBelow(l, p))
  {
    if StateOf(l, p) == StateExcluded {
      if NoInclusionBelow(l, p) {
        forall q: Path | p <= q
          ensures !Included(l, q)
        {
          NoInclusions(l, p, q);
        }
      } else {
        var q: Path :| q in l.included && Covers(p, q);
        CoversIsPrefix(p, q);
        assert Included(l, q);
      }
    } else {
      var l' := AfterExclude(l, p);
      ClearedOnlyAt(l, p);
      ParentState(l, p);
      ParentState(l', p);
      ParentKept(l, l', p);
      EffectFromTop(l, l', p, Included(l', p));
    }
  }

  lemma {:induction false} NoInclusions(l: Lists, p: Path, q: Path)
    requires StateOf(l, p) == StateExcluded && p <= q && NoInclusionBelow(l, p)
    ensures !Included(l, q)
    decreases |q|
  {
    if q != p {
      assert p <= Parent(q);
      NoInclusions(l, p, Parent(q));
      CoversIsPrefix(p, q);
    }
  }

  /** `p` is listed only where it makes a difference. */
  predicate ListedForAReason(l: Lists, p: Path) {
    && (p in l.included ==> !Included(l, Parent(p)))
    && (p in l.excluded && p !in l.included ==> Included(l, Parent(p)))
  }

  /**
   The toggle law: everything at or below `p` flips to the opposite of what `p` was, whatever
   the lists are, exactly when striking `p` off its list would change its status.
   */
  lemma ToggleExactly(l: Lists, p: Path)
    ensures TookEffect(l, AfterToggle(l, p), p, !Included(l, p)) <==> ListedForAReason(l, p)
  {
    if Included(l, p) {
      ExcludeExactly(l, p);
    } else {
      IncludeExactly(l, p);
    }
  }

  /**
   Two toggles: after the first one, effective or not, `p` is listed for a reason, so the
   second always flips it and what is below it.
   */
  lemma ToggleTwice(l: Lists, p: Path)
    ensures var l' := AfterToggle(l, p);
            && ListedForAReason(l', p)
            && TookEffect(l', AfterToggle(l', p), p, !Included(l', p))
            && (ListedForAReason(l, p) <==> TookEffect(l, AfterToggle(l', p), p, Included(l, p)))
  {
    var l' := AfterToggle(l, p);
    ClearedOnlyAt(l, p);
    ParentState(l, p);
    ParentKept(l, l', p);
    ToggleExactly(l', p);
    ToggleExactly(l, p);
    EffectFromTop(l, l', p, Included(l', p));
    hide Included, ListedForAReason, AfterToggle;
    SecondEffect(l, l', AfterToggle(l', p), p);
  }

  lemma SecondEffect(l: Lists, l': Lists, l'': Lists, p: Path)
    requires TookEffect(l, l', p, Included(l', p)) && TookEffect(l', l'', p, !Included(l', p))
    ensures TookEffect(l, l'', p, Included(l, p)) <==> Included(l', p) == !Included(l, p)
  {
    hide Included;
    assert Included(l'', p) == !Included(l', p);
  }

  /**
   In normal form every listed path is listed for a reason, so that every toggle takes effect;
   and all three operations keep normal form.
   */
  lemma NormalFormIsKept(l: Lists, p: Path)
    requires NormalForm(l)
    ensures ListedForAReason(l, p)
    ensures NormalForm(AfterInclude(l, p)) && NormalForm(AfterExclude(l, p)) && NormalForm(AfterToggle(l, p))
  {
    ClearedOnlyAt(l, p);
    ParentState(l, p);
    if StateOf(l, p) != StateIncluded {
      NormalFormKept(l, AfterInclude(l, p), p);
    }
    if StateOf(l, p) != StateExcluded {
      NormalFormKept(l, AfterExclude(l, p), p);
    }
  }

  /** Including a path that is excluded for no reason only strikes it off the list. */
  lemma IncludeFails()
    ensures var l := Lists({}, {["a"]}); !Included(AfterInclude(l, ["a"]), ["a"])
  {
    assert Parent(["a"]) == [];
  }

  /** Including a folder that is included already leaves the exception below it. */
  lemma IncludeKeepsException()
    ensures var l := Lists({["a"]}, {["a", "b"]});
            NormalForm(l) && !Included(AfterInclude(l, ["a"]), ["a", "b"])
  {
    assert Parent(["a", "b"]) == ["a"] && Parent(["a"]) == [];
  }

  /** Toggling a path that is included for no reason leaves it included. */
  lemma ToggleFails()
    ensures var l := Lists({["a"], ["a", "b"]}, {});
            Included(l, ["a", "b"]) && Included(AfterToggle(l, ["a", "b"]), ["a", "b"])
  {
    var l, p := Lists({["a"], ["a", "b"]}, {}), ["a", "b"];
    var l' := AfterToggle(l, p);
    ClearedOnlyAt(l, p);
    assert Parent(p) == ["a"];
    assert ["a"] in l'.included;
  }

  // ------------------------------------------------------ the scanner's rule

  /** The text length of the longest path in `s` that covers `p`, 0 if none does. */
  ghost predicate IsLongestMatch(s: set<Path>, p: Path, n: nat) {
    && (forall q :: q in s && Covers(q, p) ==> |Render(q)| <= n)
    && (n == 0 || exists q :: q in s && Covers(q, p) && |Render(q)| == n)
  }

  /** The number of components of the longest prefix of `p` listed in `s`. */
  function Deepest(s: set<Path>, p: seq<Name>): (k: nat)
    ensures k <= |p|
    decreases |p|
  {
    if p == [] then 0
    else if p in s then |p|
    else Deepest(s, p[..|p| - 1])
  }

  lemma {:induction false} DeepestIsListed(s: set<Path>, p: seq<Name>)
    ensures var k := Deepest(s, p);
            && (k > 0 ==> p[..k] in s)
            && (forall j :: k < j <= |p| ==> p[..j] !in s)
    decreases |p|
  {
    if p == [] {
    } else if p in s {
      assert p[..|p|] == p;
    } else {
      var upper := p[..|p| - 1];
      DeepestIsListed(s, upper);
      var k := Deepest(s, p);
      assert p[..k] == upper[..k];
      forall j | k < j <= |p|
        ensures p[..j] !in s
      {
        if j < |p| {
          assert p[..j] == upper[..j];
        } else {
          assert p[..j] == p;
        }
      }
    }
  }

  /** Longest text and most components single out the same match. */
  lemma LongestIsDeepest(s: set<Path>, p: Path, n: nat)
    requires IsLongestMatch(s, p, n)
    ensures n == |Render(p[..Deepest(s, p)])|
  {
    hide Render, Covers;
    DeepestIsListed(s, p);
    var k := Deepest(s, p);
    EmptyText();
    if k > 0 {
      CoversIsPrefix(p[..k], p);
      assert |Render(p[..k])| <= n;
      LongerText(p, 0, k);
      assert p[..0] == [];
    }
    if n != 0 {
      var q :| q in s && Covers(q, p) && |Render(q)| == n;
      CoversIsPrefix(q, p);
      assert q == p[..|q|];
      LongerText(p, |q|, k);
    }
  }

  lemma EmptyText()
    ensures Render([]) == ""
  {
  }

  /** The two algorithms, stated over components: deepest include beats deepest exclude. */
  lemma {:induction false} DeepestDecides(l: Lists, p: seq<Name>)
    requires l.included !! l.excluded
    ensures Included(l, p) <==> Deepest(l.included, p) > Deepest(l.excluded, p)
    decreases |p|
  {
    if p != [] && p !in l.included && p !in l.excluded {
      DeepestDecides(l, p[..|p| - 1]);
    }
  }

  /** Longest-match comparison as the scanner does it agrees with the recursion of the model. */
  lemma AlgorithmsAgree(l: Lists, p: Path, longestInclude: nat, longestExclude: nat)
    requires l.included !! l.excluded
    ensures IsLongestMatch(l.included, p, longestInclude) && IsLongestMatch(l.excluded, p, longestExclude) ==>
              (longestInclude > longestExclude <==> Included(l, p))
  {
    hide Render, IsLongestMatch, Included;
    if IsLongestMatch(l.included, p, longestInclude) && IsLongestMatch(l.excluded, p, longestExclude) {
      LongestIsDeepest(l.included, p, longestInclude);
      LongestIsDeepest(l.excluded, p, longestExclude);
      DeepestDecides(l, p);
      var i, e := Deepest(l.included, p), Deepest(l.excluded, p);
      if i <= e {
        LongerText(p, i, e);
      } else {
        LongerText(p, e, i);
      }
    }
  }

  /** What the scanner's lists amount to when both sides list the same path. */
  function Mirror(l: Lists): (m: Lists)
    ensures m.included !! m.excluded
  {
    Lists(l.included - l.excluded, l.excluded - l.included)
  }

  /**
   With overlapping lists the mirrored scanner agrees with the model on every path exactly
   when each path listed twice would have been included anyway.
   */
  lemma OverlapAgreesExactly(l: Lists)
    ensures (forall p: Path :: Included(Mirror(l), p) == Included(l, p)) <==>
            (forall p: Path :: p in l.included && p in l.excluded ==> Included(l, Parent(p)))
  {
    var m := Mirror(l);
    if forall p: Path :: Included(m, p) == Included(l, p) {
      forall p: Path | p in l.included && p in l.excluded
        ensures Included(l, Parent(p))
      {
        assert Included(m, p) == Included(l, p);
        assert Included(m, p) == Included(m, Parent(p));
        if |p| > 1 {
          assert Included(m, Parent(p)) == Included(l, Parent(p));
        }
      }
    }
    if forall p: Path :: p in l.included && p in l.excluded ==> Included(l, Parent(p)) {
      forall p: Path
        ensures Included(m, p) == Included(l, p)
      {
        AgreeBelow(l, p);
      }
    }
  }

  /** A folder listed on both sides and nothing else: included for the model, not for the scanner. */
  lemma OverlapFails()
    ensures var l := Lists({["a"]}, {["a"]});
            Included(l, ["a"]) && !Included(Mirror(l), ["a"])
  {
    assert Parent(["a"]) == [];
    assert Mirror(Lists({["a"]}, {["a"]})) == Lists({}, {});
  }

  lemma {:induction false} AgreeBelow(l: Lists, p: seq<Name>)
    requires forall q: Path :: q in l.included && q in l.excluded ==> Included(l, Parent(q))
    ensures Included(Mirror(l), p) == Included(l, p)
    decreases |p|
  {
    if p != [] {
      AgreeBelow(l, p[..|p| - 1]);
      if p in l.included && p in l.excluded {
        assert Included(l, Parent(p));
      }
    }
  }
}
