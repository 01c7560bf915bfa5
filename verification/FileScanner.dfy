/**
 The file scanner of `backupplanwidget.cpp`: it keeps its own include and exclude lists and
 sorts the symbolic links it has met into problematic ones and others. Timers and the lists
 of unreadable files are left out; posted scan events wait in `scans`.
 */
module FileScanner {
  import opened FolderPaths
  import opened FolderStatus
  import opened FolderSelection

  datatype FileInfo = SymLink(target: Path) | Folder(readable: bool, entries: seq<Path>) | Other

  /** The file system, which stays as it is. */
  datatype FileSystem = FileSystem(info: Path -> FileInfo, present: Path -> bool)

  predicate IsTemporary(p: Path) {
    "/tmp/" <= Render(p) || "/var/tmp/" <= Render(p)
  }

  /** `isSymlinkProblematic`: the target is there but will not be in the backup. */
  predicate Problematic(fs: FileSystem, l: Lists, target: Path) {
    fs.present(target) && !Included(l, target) && !IsTemporary(target)
  }

  /** A link is problematic if its target exists, stays out of the backup, and is not below /tmp or /var/tmp. */
  lemma ProblematicExactly(fs: FileSystem, l: Lists, target: Path)
    ensures Problematic(fs, l, target) <==>
            fs.present(target) && !Included(l, target) && !(["tmp"] < target) && !(["var", "tmp"] < target)
  {
    BelowIsProperPrefix(["tmp"], target);
    BelowIsProperPrefix(["var", "tmp"], target);
    TemporaryFolders();
    hide Render, Included;
  }

  lemma TemporaryFolders()
    ensures Render(["tmp"]) + "/" == "/tmp/" && Render(["var", "tmp"]) + "/" == "/var/tmp/"
  {
    assert ["tmp"][1..] == [] && ["var", "tmp"][1..] == ["tmp"];
    assert Render(["tmp"]) == "/tmp";
  }

  // -------------------------------------------------------- monotonicity

  lemma {:induction false} DeepestMonotone(s: set<Path>, s': set<Path>, p: seq<Name>)
    requires s <= s'
    ensures Deepest(s, p) <= Deepest(s', p)
    decreases |p|
  {
    if p != [] {
      DeepestMonotone(s, s', p[..|p| - 1]);
    }
  }

  /** Including a path never takes one out of the backup, excluding one never adds any. */
  lemma UpdatesAreMonotone(l: Lists, p: Path, q: Path)
    requires l.included !! l.excluded
    ensures Included(l, q) ==> Included(ScannerIncludes(l, p), q)
    ensures Included(ScannerExcludes(l, p), q) ==> Included(l, q)
    ensures ScannerIncludes(l, p).included !! ScannerIncludes(l, p).excluded
    ensures ScannerExcludes(l, p).included !! ScannerExcludes(l, p).excluded
  {
    var more, less := ScannerIncludes(l, p), ScannerExcludes(l, p);
    DeepestDecides(l, q);
    DeepestDecides(more, q);
    DeepestDecides(less, q);
    DeepestMonotone(l.included, more.included, q);
    DeepestMonotone(more.excluded, l.excluded, q);
    DeepestMonotone(less.included, l.included, q);
    DeepestMonotone(l.excluded, less.excluded, q);
  }

  // ---------------------------------------------------------- the scanner

  /** Recorded links are as in the file system, and each satisfies `bad` or its opposite. */
  ghost predicate AllAre(fs: FileSystem, l: Lists, links: map<Path, Path>, bad: bool) {
    forall k :: k in links ==> fs.info(k) == SymLink(links[k]) && Problematic(fs, l, links[k]) == bad
  }

  lemma LinkAdded(fs: FileSystem, l: Lists, links: map<Path, Path>, bad: bool, k: Path)
    requires AllAre(fs, l, links, bad) && fs.info(k).SymLink? && Problematic(fs, l, fs.info(k).target) == bad
    ensures AllAre(fs, l, links[k := fs.info(k).target], bad)
  {
    hide Problematic;
  }

  lemma LinkRemoved(fs: FileSystem, l: Lists, links: map<Path, Path>, bad: bool, k: Path)
    requires AllAre(fs, l, links, bad)
    ensures AllAre(fs, l, links - {k}, bad)
  {
    hide Problematic;
  }

  /** The links in `before` that are still to be looked at or stay because they are in the backup. */
  ghost function Kept(l: Lists, before: set<Path>, unvisited: set<Path>): set<Path> {
    set k | k in before && (k in unvisited || Included(l, k))
  }

  lemma KeptBounds(l: Lists, before: set<Path>)
    ensures Kept(l, before, before) == before && Kept(l, before, {}) == set k | k in before && Included(l, k)
  {
    hide Included;
  }

  lemma KeptStep(l: Lists, bad: set<Path>, before: set<Path>, unvisited: set<Path>, k: Path)
    requires k in unvisited && unvisited <= before && forall b :: b in bad ==> Included(l, b)
    ensures bad + Kept(l, before, unvisited - {k}) ==
            if Included(l, k) then bad + Kept(l, before, unvisited) else bad + Kept(l, before, unvisited) - {k}
  {
    hide Included;
  }

  lemma InBackupIsFine(fs: FileSystem, l: Lists, target: Path)
    requires Included(l, target)
    ensures !Problematic(fs, l, target)
  {
  }

  class FileScanner {
    const fs: FileSystem
    var included: set<Path>
    var excluded: set<Path>
    var symlinksNotOk: map<Path, Path>
    var symlinksOk: map<Path, Path>
    var scans: seq<Path>

    ghost function Own(): Lists
      reads this`included, this`excluded
    {
      Lists(included, excluded)
    }

    /** Every recorded link is on the side it belongs to. */
    ghost predicate Classified()
      reads this`included, this`excluded, this`symlinksNotOk, this`symlinksOk
    {
      AllAre(fs, Own(), symlinksNotOk, true) && AllAre(fs, Own(), symlinksOk, false)
    }

    ghost predicate Valid()
      reads this
    {
      included !! excluded && Classified()
    }

    /** The two sides never share a link. */
    lemma SidesAreDisjoint()
      requires Valid()
      ensures symlinksNotOk.Keys !! symlinksOk.Keys
    {
    }

    constructor (fs: FileSystem)
      ensures Valid() && this.fs == fs && Own() == Lists({}, {})
      ensures symlinksNotOk == map[] && symlinksOk == map[] && scans == []
    {
      this.fs, included, excluded := fs, {}, {};
      symlinksNotOk, symlinksOk, scans := map[], map[], [];
    }

    /** The text length of the longest path in `s` that covers `p`. */
    method LongestMatch(s: set<Path>, p: Path) returns (longest: nat)
      ensures IsLongestMatch(s, p, longest)
    {
      hide Render, Covers;
      longest := 0;
      var unvisited := s;
      while unvisited != {}
        invariant unvisited <= s && IsLongestMatch(s - unvisited, p, longest)
        decreases unvisited
      {
        var q :| q in unvisited;
        var matches := Covers(q, p);
        ghost var seen := s - unvisited;
        if matches && |Render(q)| > longest {
          longest := |Render(q)|;
        }
        unvisited := unvisited - {q};
        assert s - unvisited == seen + {q};
      }
      assert s - unvisited == s;
    }

    /** `isPathIncluded`: the longest matching include against the longest matching exclude. */
    method IsPathIncluded(p: Path) returns (yes: bool)
      requires included !! excluded
      ensures yes == Included(Own(), p)
    {
      var longestInclude := LongestMatch(included, p);
      var longestExclude := LongestMatch(excluded, p);
      AlgorithmsAgree(Own(), p, longestInclude, longestExclude);
      yes := longestInclude > longestExclude;
    }

    /** `isSymlinkProblematic`. */
    method IsSymlinkProblematic(target: Path) returns (yes: bool)
      requires included !! excluded
      ensures yes == Problematic(fs, Own(), target)
    {
      var inBackup := IsPathIncluded(target);
      yes := fs.present(target) && !inBackup && !IsTemporary(target);
    }

    /** `checkPathForProblems`: classifies a link, schedules a folder. */
    method CheckPathForProblems(p: Path)
      requires included !! excluded
      modifies this`symlinksNotOk, this`symlinksOk, this`scans
      ensures var link := fs.info(p);
              if link.SymLink? && Problematic(fs, Own(), link.target) then
                symlinksNotOk == old(symlinksNotOk)[p := link.target] && symlinksOk == old(symlinksOk)
              else if link.SymLink? then
                symlinksNotOk == old(symlinksNotOk) && symlinksOk == old(symlinksOk)[p := link.target]
              else
                symlinksNotOk == old(symlinksNotOk) && symlinksOk == old(symlinksOk)
      ensures scans == if fs.info(p).Folder? then old(scans) + [p] else old(scans)
    {
      match fs.info(p)
      case SymLink(target) =>
        var problematic := IsSymlinkProblematic(target);
        if problematic {
          symlinksNotOk := symlinksNotOk[p := target];
        } else {
          symlinksOk := symlinksOk[p := target];
        }
      case Folder(_, _) => scans := scans + [p];
      case Other =>
    }

    /** The lists change first; no link on the good side turns bad. */
    method NoteIncluded(p: Path)
      requires Valid()
      modifies this`included, this`excluded
      ensures Own() == ScannerIncludes(old(Own()), p) && included !! excluded
      ensures AllAre(fs, Own(), symlinksOk, false)
      ensures Stale(symlinksNotOk)
    {
      hide Included;
      forall q: Path
        ensures Included(Own(), q) ==> Included(ScannerIncludes(Own(), p), q)
      {
        UpdatesAreMonotone(Own(), p, q);
      }
      UpdatesAreMonotone(Own(), p, p);
      if p in excluded {
        excluded := excluded - {p};
      } else {
        included := included + {p};
      }
    }

    /** Bad links, except that some targets may meanwhile be included. */
    ghost predicate Stale(links: map<Path, Path>)
      reads this`included, this`excluded
    {
      forall k :: k in links ==>
        fs.info(k) == SymLink(links[k]) && (Problematic(fs, Own(), links[k]) || Included(Own(), links[k]))
    }

    /** `includePath`: links whose targets are now included change sides. */
    method IncludePath(p: Path)
      requires Valid()
      modifies this
      ensures Valid() && Own() == ScannerIncludes(old(Own()), p)
      ensures symlinksNotOk.Keys + symlinksOk.Keys ==
              old(symlinksNotOk.Keys + symlinksOk.Keys) + if fs.info(p).SymLink? then {p} else {}
      ensures scans == old(scans) + if fs.info(p).Folder? then [p] else []
    {
      hide Included, Problematic, AllAre, Stale;
      NoteIncluded(p);
      CheckIncluded(p);
      Acquit();
    }

    /** The check of `includePath`, between the update of the lists and the loop. */
    method CheckIncluded(p: Path)
      requires included !! excluded && AllAre(fs, Own(), symlinksOk, false) && Stale(symlinksNotOk)
      modifies this`symlinksNotOk, this`symlinksOk, this`scans
      ensures AllAre(fs, Own(), symlinksOk, false) && Stale(symlinksNotOk)
      ensures symlinksNotOk.Keys + symlinksOk.Keys ==
              old(symlinksNotOk.Keys + symlinksOk.Keys) + if fs.info(p).SymLink? then {p} else {}
      ensures scans == old(scans) + if fs.info(p).Folder? then [p] else []
    {
      hide Included, Problematic, AllAre, Stale;
      if fs.info(p).SymLink? {
        if Problematic(fs, Own(), fs.info(p).target) {
          StaleLinkAdded(symlinksNotOk, p);
        } else {
          LinkAdded(fs, Own(), symlinksOk, false, p);
        }
      }
      CheckPathForProblems(p);
    }

    lemma StaleLinkAdded(links: map<Path, Path>, k: Path)
      requires Stale(links) && fs.info(k).SymLink? && Problematic(fs, Own(), fs.info(k).target)
      ensures Stale(links[k := fs.info(k).target])
    {
      hide Problematic, Included;
    }

    /** The loop of `includePath`. */
    method Acquit()
      requires included !! excluded && AllAre(fs, Own(), symlinksOk, false) && Stale(symlinksNotOk)
      modifies this`symlinksNotOk, this`symlinksOk
      ensures Classified()
      ensures symlinksNotOk.Keys + symlinksOk.Keys == old(symlinksNotOk.Keys + symlinksOk.Keys)
    {
      hide Included, Problematic;
      var unvisited := symlinksNotOk.Keys;
      while unvisited != {}
        invariant unvisited <= symlinksNotOk.Keys
        invariant AllAre(fs, Own(), symlinksOk, false) && Stale(symlinksNotOk)
        invariant forall k :: k in symlinksNotOk && k !in unvisited ==> Problematic(fs, Own(), symlinksNotOk[k])
        invariant symlinksNotOk.Keys + symlinksOk.Keys == old(symlinksNotOk.Keys + symlinksOk.Keys)
        decreases unvisited
      {
        var k :| k in unvisited;
        var now := IsPathIncluded(symlinksNotOk[k]);
        if now {
          MoveToOk(k);
        }
        unvisited := unvisited - {k};
      }
    }

    /** Moves a link to the other side, its target being included. */
    method MoveToOk(k: Path)
      requires k in symlinksNotOk && Included(Own(), symlinksNotOk[k]) && Stale(symlinksNotOk)
      requires AllAre(fs, Own(), symlinksOk, false)
      modifies this`symlinksNotOk, this`symlinksOk
      ensures AllAre(fs, Own(), symlinksOk, false) && Stale(symlinksNotOk)
      ensures symlinksNotOk == old(symlinksNotOk) - {k}
      ensures symlinksNotOk.Keys + symlinksOk.Keys == old(symlinksNotOk.Keys + symlinksOk.Keys)
    {
      hide Included, Problematic;
      InBackupIsFine(fs, Own(), symlinksNotOk[k]);
      symlinksOk := symlinksOk[k := symlinksNotOk[k]];
      symlinksNotOk := symlinksNotOk - {k};
    }

    /** The lists change first; no link on the bad side turns good. */
    method NoteExcluded(p: Path)
      requires Valid()
      modifies this`included, this`excluded
      ensures Own() == ScannerExcludes(old(Own()), p) && included !! excluded
      ensures AllAre(fs, Own(), symlinksNotOk, true)
    {
      hide Included;
      forall q: Path
        ensures Included(ScannerExcludes(Own(), p), q) ==> Included(Own(), q)
      {
        UpdatesAreMonotone(Own(), p, q);
      }
      UpdatesAreMonotone(Own(), p, p);
      if p in included {
        included := included - {p};
      } else {
        excluded := excluded + {p};
      }
    }

    /** `excludePath`: links outside the backup are dropped, the others re-classified. */
    method ExcludePath(p: Path)
      requires Valid()
      modifies this
      ensures Valid() && Own() == ScannerExcludes(old(Own()), p)
      ensures symlinksNotOk.Keys + symlinksOk.Keys ==
              set k | k in old(symlinksNotOk.Keys + symlinksOk.Keys) && Included(Own(), k)
      ensures scans == old(scans)
    {
      hide Included;
      NoteExcluded(p);
      DropExcluded();
      Reclassify();
    }

    /** The first loop of `excludePath`. */
    method DropExcluded()
      requires included !! excluded && AllAre(fs, Own(), symlinksNotOk, true)
      modifies this`symlinksNotOk
      ensures AllAre(fs, Own(), symlinksNotOk, true)
      ensures symlinksNotOk.Keys == set k | k in old(symlinksNotOk.Keys) && Included(Own(), k)
    {
      hide Included, AllAre;
      ghost var before := symlinksNotOk;
      var unvisited := symlinksNotOk.Keys;
      while unvisited != {}
        invariant unvisited <= symlinksNotOk.Keys <= before.Keys && AllAre(fs, Own(), symlinksNotOk, true)
        invariant forall k :: k in before.Keys - unvisited ==> (k in symlinksNotOk <==> Included(Own(), k))
        decreases unvisited
      {
        var k :| k in unvisited;
        var stays := IsPathIncluded(k);
        LinkRemoved(fs, Own(), symlinksNotOk, true, k);
        if !stays {
          symlinksNotOk := symlinksNotOk - {k};
        }
        unvisited := unvisited - {k};
      }
    }

    /** The good links as far as the second loop of `excludePath` has looked at them. */
    ghost predicate Judged(links: map<Path, Path>, unvisited: set<Path>)
      reads this`included, this`excluded
    {
      forall k :: k in links ==>
        fs.info(k) == SymLink(links[k]) && (k in unvisited || !Problematic(fs, Own(), links[k]))
    }

    /** The second loop of `excludePath`. */
    method Reclassify()
      requires included !! excluded && AllAre(fs, Own(), symlinksNotOk, true)
      requires forall k :: k in symlinksOk ==> fs.info(k) == SymLink(symlinksOk[k])
      requires forall k :: k in symlinksNotOk ==> Included(Own(), k)
      modifies this`symlinksNotOk, this`symlinksOk
      ensures Classified()
      ensures symlinksNotOk.Keys + symlinksOk.Keys ==
              old(symlinksNotOk.Keys) + set k | k in old(symlinksOk.Keys) && Included(Own(), k)
    {
      hide Included, Problematic, AllAre, Kept;
      ghost var before, bad := symlinksOk.Keys, symlinksNotOk.Keys;
      KeptBounds(Own(), before);
      JudgeAll(bad, before);
      AllJudged();
    }

    method JudgeAll(ghost bad: set<Path>, ghost before: set<Path>)
      requires included !! excluded && AllAre(fs, Own(), symlinksNotOk, true) && Judged(symlinksOk, before)
      requires before == symlinksOk.Keys && bad == symlinksNotOk.Keys && Kept(Own(), before, before) == before
      requires forall k :: k in bad ==> Included(Own(), k)
      modifies this`symlinksNotOk, this`symlinksOk
      ensures AllAre(fs, Own(), symlinksNotOk, true) && Judged(symlinksOk, {})
      ensures Known() == bad + Kept(Own(), before, {})
    {
      hide Included, AllAre, Kept, Judged;
      var unvisited := symlinksOk.Keys;
      while unvisited != {}
        invariant unvisited <= symlinksOk.Keys && unvisited <= before
        invariant AllAre(fs, Own(), symlinksNotOk, true) && Judged(symlinksOk, unvisited)
        invariant forall k :: k in symlinksNotOk ==> Included(Own(), k)
        invariant Known() == bad + Kept(Own(), before, unvisited)
        decreases unvisited
      {
        var k :| k in unvisited;
        KeptStep(Own(), bad, before, unvisited, k);
        JudgeOne(k, unvisited);
        unvisited := unvisited - {k};
      }
    }

    /** The links on either side. */
    ghost function Known(): set<Path>
      reads this`symlinksNotOk, this`symlinksOk
    {
      symlinksNotOk.Keys + symlinksOk.Keys
    }

    lemma AllJudged()
      requires Judged(symlinksOk, {})
      ensures AllAre(fs, Own(), symlinksOk, false)
    {
      hide Problematic;
    }

    /** Drops a link outside the backup, moves a problematic one, keeps any other. */
    method JudgeOne(k: Path, ghost unvisited: set<Path>)
      requires included !! excluded && AllAre(fs, Own(), symlinksNotOk, true) && Judged(symlinksOk, unvisited)
      requires k in unvisited && unvisited <= symlinksOk.Keys
      requires forall b :: b in symlinksNotOk ==> Included(Own(), b)
      modifies this`symlinksNotOk, this`symlinksOk
      ensures AllAre(fs, Own(), symlinksNotOk, true) && Judged(symlinksOk, unvisited - {k})
      ensures unvisited - {k} <= symlinksOk.Keys
      ensures forall b :: b in symlinksNotOk ==> Included(Own(), b)
      ensures Known() == old(Known()) - if Included(Own(), k) then {} else {k}
    {
      hide Included, Problematic, AllAre;
      var stays := IsPathIncluded(k);
      if !stays {
        symlinksOk := symlinksOk - {k};
      } else {
        var problematic := IsSymlinkProblematic(symlinksOk[k]);
        if problematic {
          MoveToNotOk(k);
        }
      }
    }

    /** Moves a link to the other side, its target being problematic. */
    method MoveToNotOk(k: Path)
      requires k in symlinksOk && fs.info(k) == SymLink(symlinksOk[k]) && Problematic(fs, Own(), symlinksOk[k])
      requires AllAre(fs, Own(), symlinksNotOk, true)
      modifies this`symlinksNotOk, this`symlinksOk
      ensures AllAre(fs, Own(), symlinksNotOk, true)
      ensures symlinksNotOk.Keys == old(symlinksNotOk.Keys) + {k} && symlinksOk == old(symlinksOk) - {k}
    {
      hide Problematic;
      symlinksNotOk := symlinksNotOk[k := symlinksOk[k]];
      symlinksOk := symlinksOk - {k};
    }

    /** `event`: the oldest posted scan, if its folder is still included. */
    method HandleScan()
      requires Valid() && scans != []
      modifies this`symlinksNotOk, this`symlinksOk, this`scans
      ensures Valid()
      ensures var folder := fs.info(old(scans)[0]);
              var entries := if Included(Own(), old(scans)[0]) && folder.Folder? && folder.readable
                             then folder.entries else [];
              && symlinksNotOk.Keys + symlinksOk.Keys == old(symlinksNotOk.Keys + symlinksOk.Keys) + LinksIn(fs, entries)
              && scans == old(scans)[1..] + FoldersIn(fs, entries)
    {
      hide Included, Problematic;
      var p := scans[0];
      scans := scans[1..];
      var yes := IsPathIncluded(p);
      if yes {
        ScanFolder(p);
      }
    }

    /** A check between two updates of the lists keeps the classification. */
    method CheckEntry(p: Path)
      requires Valid()
      modifies this`symlinksNotOk, this`symlinksOk, this`scans
      ensures Valid()
      ensures symlinksNotOk.Keys + symlinksOk.Keys ==
              old(symlinksNotOk.Keys + symlinksOk.Keys) + if fs.info(p).SymLink? then {p} else {}
      ensures scans == old(scans) + if fs.info(p).Folder? then [p] else []
    {
      hide Included, Problematic, AllAre;
      if fs.info(p).SymLink? {
        if Problematic(fs, Own(), fs.info(p).target) {
          LinkAdded(fs, Own(), symlinksNotOk, true, p);
        } else {
          LinkAdded(fs, Own(), symlinksOk, false, p);
        }
      }
      CheckPathForProblems(p);
    }

    /** `scanFolder`: checks every entry of a readable folder. */
    method ScanFolder(p: Path)
      requires Valid()
      modifies this`symlinksNotOk, this`symlinksOk, this`scans
      ensures Valid()
      ensures var entries := Visible(fs, p);
              && symlinksNotOk.Keys + symlinksOk.Keys == old(symlinksNotOk.Keys + symlinksOk.Keys) + LinksIn(fs, entries)
              && scans == old(scans) + FoldersIn(fs, entries)
    {
      hide Valid, Visible, LinksIn, FoldersIn;
      var entries := Visible(fs, p);
      NoEntries(fs, entries);
      for i := 0 to |entries|
        invariant Valid()
        invariant symlinksNotOk.Keys + symlinksOk.Keys == old(symlinksNotOk.Keys + symlinksOk.Keys) + LinksIn(fs, entries[..i])
        invariant scans == old(scans) + FoldersIn(fs, entries[..i])
      {
        CheckEntry(entries[i]);
        NextEntry(fs, entries, i);
      }
      assert entries[..|entries|] == entries;
    }
  }

  /** The entries a scan sees: those of a readable folder. */
  function Visible(fs: FileSystem, p: Path): seq<Path> {
    match fs.info(p)
    case Folder(true, entries) => entries
    case _ => []
  }

  function LinksIn(fs: FileSystem, entries: seq<Path>): set<Path> {
    set q | q in entries && fs.info(q).SymLink?
  }

  function FoldersIn(fs: FileSystem, entries: seq<Path>): seq<Path> {
    if entries == [] then []
    else
      var last := entries[|entries| - 1];
      FoldersIn(fs, entries[..|entries| - 1]) + if fs.info(last).Folder? then [last] else []
  }

  /** Exactly the folders among the entries are scheduled. */
  lemma {:induction false} FoldersInExactly(fs: FileSystem, entries: seq<Path>, q: Path)
    ensures q in FoldersIn(fs, entries) <==> q in entries && fs.info(q).Folder?
    ensures multiset(FoldersIn(fs, entries)) <= multiset(entries)
  {
    if entries != [] {
      FoldersInExactly(fs, entries[..|entries| - 1], q);
      assert entries == entries[..|entries| - 1] + [entries[|entries| - 1]];
    }
  }

  lemma NoEntries(fs: FileSystem, entries: seq<Path>)
    ensures LinksIn(fs, entries[..0]) == {} && FoldersIn(fs, entries[..0]) == []
  {
  }

  lemma NextEntry(fs: FileSystem, entries: seq<Path>, i: nat)
    requires i < |entries|
    ensures LinksIn(fs, entries[..i + 1]) ==
            LinksIn(fs, entries[..i]) + if fs.info(entries[i]).SymLink? then {entries[i]} else {}
    ensures FoldersIn(fs, entries[..i + 1]) ==
            FoldersIn(fs, entries[..i]) + if fs.info(entries[i]).Folder? then [entries[i]] else []
  {
    assert entries[..i + 1] == entries[..i] + [entries[i]];
    assert entries[..i + 1][..i] == entries[..i];
  }
}
