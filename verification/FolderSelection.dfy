/**
 The two objects that keep include and exclude lists: the tree model of the UI thread and
 the file scanner of the worker thread, connected by a queue of add and remove signals.
 */
module FolderSelection {
  import opened FolderPaths
  import opened FolderStatus

  datatype Signal =
    | IncludedPathAdded(path: Path)
    | IncludedPathRemoved(path: Path)
    | ExcludedPathAdded(path: Path)
    | ExcludedPathRemoved(path: Path)

  // ----------------------------------------------------- what signals mean

  /** `FileScanner::includePath` and `excludePath`, as far as the lists go. */
  function ScannerIncludes(s: Lists, p: Path): Lists {
    if p in s.excluded then s.(excluded := s.excluded - {p}) else s.(included := s.included + {p})
  }

  function ScannerExcludes(s: Lists, p: Path): Lists {
    if p in s.included then s.(included := s.included - {p}) else s.(excluded := s.excluded + {p})
  }

  /** The connections made when the widget is built. */
  function Receive(s: Lists, signal: Signal): Lists {
    match signal
    case IncludedPathAdded(p) => ScannerIncludes(s, p)
    case ExcludedPathRemoved(p) => ScannerIncludes(s, p)
    case ExcludedPathAdded(p) => ScannerExcludes(s, p)
    case IncludedPathRemoved(p) => ScannerExcludes(s, p)
  }

  /** In-order delivery. */
  function ReceiveAll(s: Lists, signals: seq<Signal>): Lists
    decreases |signals|
  {
    if signals == [] then s else ReceiveAll(Receive(s, signals[0]), signals[1..])
  }

  lemma ReceiveFirst(s: Lists, signals: seq<Signal>)
    requires signals != []
    ensures ReceiveAll(s, signals) == ReceiveAll(Receive(s, signals[0]), signals[1..])
  {
  }

  lemma {:induction false} ReceiveLast(s: Lists, signals: seq<Signal>, signal: Signal)
    ensures ReceiveAll(s, signals + [signal]) == Receive(ReceiveAll(s, signals), signal)
    decreases |signals|
  {
    if signals == [] {
      assert [signal][1..] == [];
    } else {
      assert (signals + [signal])[1..] == signals[1..] + [signal];
      ReceiveLast(Receive(s, signals[0]), signals[1..], signal);
    }
  }

  /** The change to the model's lists that a signal announces. */
  function Announced(l: Lists, signal: Signal): Lists {
    match signal
    case IncludedPathAdded(p) => l.(included := l.included + {p})
    case IncludedPathRemoved(p) => l.(included := l.included - {p})
    case ExcludedPathAdded(p) => l.(excluded := l.excluded + {p})
    case ExcludedPathRemoved(p) => l.(excluded := l.excluded - {p})
  }

  /** A signal announces a real change: no path is added twice or removed when absent. */
  predicate Announces(l: Lists, signal: Signal) {
    Announced(l, signal) != l
  }

  /** One announced change keeps the scanner a mirror, even when the lists overlap. */
  lemma MirrorStep(l: Lists, signal: Signal)
    requires Announces(l, signal)
    ensures Receive(Mirror(l), signal) == Mirror(Announced(l, signal))
  {
  }

  /** A run of signals, each of which announces a real change in its turn. */
  predicate Genuine(l: Lists, signals: seq<Signal>)
    decreases |signals|
  {
    signals == [] || (Announces(l, signals[0]) && Genuine(Announced(l, signals[0]), signals[1..]))
  }

  function AnnouncedAll(l: Lists, signals: seq<Signal>): Lists
    decreases |signals|
  {
    if signals == [] then l else AnnouncedAll(Announced(l, signals[0]), signals[1..])
  }

  /** After any genuine run, delivered in order, the scanner mirrors where the model has got to. */
  lemma {:induction false} MirrorAfterRun(l: Lists, signals: seq<Signal>)
    requires Genuine(l, signals)
    ensures ReceiveAll(Mirror(l), signals) == Mirror(AnnouncedAll(l, signals))
    decreases |signals|
  {
    if signals != [] {
      MirrorStep(l, signals[0]);
      MirrorAfterRun(Announced(l, signals[0]), signals[1..]);
    }
  }

  /** `news` announces, each once and in any order, the paths that `l'` no longer lists. */
  ghost predicate AnnouncesErased(news: seq<Signal>, l: Lists, l': Lists) {
    && l'.included <= l.included && l'.excluded <= l.excluded
    && (forall i, j :: 0 <= i < j < |news| ==> news[i] != news[j])
    && (forall q: Path :: IncludedPathRemoved(q) in news <==> q in l.included && q !in l'.included)
    && (forall q: Path :: ExcludedPathRemoved(q) in news <==> q in l.excluded && q !in l'.excluded)
    && (forall q: Path :: IncludedPathAdded(q) !in news && ExcludedPathAdded(q) !in news)
  }

  lemma NothingErased(l: Lists)
    ensures AnnouncesErased([], l, l)
  {
  }

  lemma OneMoreErased(news: seq<Signal>, l: Lists, l': Lists, signal: Signal)
    requires AnnouncesErased(news, l, l') && Announces(l', signal)
    requires signal.IncludedPathRemoved? || signal.ExcludedPathRemoved?
    ensures AnnouncesErased(news + [signal], l, Announced(l', signal))
  {
  }

  // ------------------------------------------------------------- the model

  class FolderSelectionModel {
    var included: set<Path>
    var excluded: set<Path>
    var outbox: seq<Signal>        // emitted, not yet delivered
    ghost var delivered: Lists     // what the signals delivered so far have made of the scanner

    ghost function Own(): Lists
      reads this
    {
      Lists(included, excluded)
    }

    /** Once everything pending is delivered, the scanner mirrors `l`. */
    ghost predicate Tracks(l: Lists)
      reads this
    {
      ReceiveAll(delivered, outbox) == Mirror(l)
    }

    ghost predicate Valid()
      reads this
    {
      Tracks(Own())
    }

    constructor ()
      ensures Valid() && Own() == Lists({}, {}) && outbox == [] && delivered == Lists({}, {})
    {
      included, excluded, outbox, delivered := {}, {}, [], Lists({}, {});
    }

    method Emit(signal: Signal, ghost l: Lists)
      requires Tracks(l) && Announces(l, signal)
      modifies this`outbox
      ensures Tracks(Announced(l, signal)) && outbox == old(outbox) + [signal]
    {
      ReceiveLast(delivered, outbox, signal);
      MirrorStep(l, signal);
      outbox := outbox + [signal];
    }

    /** `inclusionState`: recursion to the parent folder. */
    method State(p: seq<Name>) returns (state: InclusionState)
      ensures state == StateOf(Own(), p)
      decreases |p|
    {
      if p == [] {
        return StateNone;
      }
      if p in included {
        return StateIncluded;
      }
      if p in excluded {
        return StateExcluded;
      }
      state := State(p[..|p| - 1]);
      match state
      case StateNone =>
      case StateIncluded => state := StateIncludeInherited;
      case StateIncludeInherited => state := StateIncludeInherited;
      case _ => state := StateExcludeInherited;
    }

    /** Since the outbox was `start`, the signals have announced what `l` listed and the model does not. */
    ghost predicate Erasing(start: seq<Signal>, l: Lists)
      reads this
    {
      Valid() && start <= outbox && AnnouncesErased(outbox[|start|..], l, Own())
    }

    /** Takes one path off its list and announces that. */
    method Erase(signal: Signal, ghost start: seq<Signal>, ghost l: Lists)
      requires Erasing(start, l) && Announces(Own(), signal)
      requires signal.IncludedPathRemoved? || signal.ExcludedPathRemoved?
      modifies this`included, this`excluded, this`outbox
      ensures Erasing(start, l) && Own() == Announced(old(Own()), signal)
    {
      hide AnnouncesErased;
      OneMoreErased(outbox[|start|..], l, Own(), signal);
      assert (outbox + [signal])[|start|..] == outbox[|start|..] + [signal];
      Emit(signal, Own());
      if signal.IncludedPathRemoved? {
        included := included - {signal.path};
      } else {
        excluded := excluded - {signal.path};
      }
    }

    /** The loop over the excluded paths. */
    method EraseExcluded(p: Path, ghost start: seq<Signal>, ghost l: Lists)
      requires Erasing(start, l)
      modifies this`included, this`excluded, this`outbox
      ensures Erasing(start, l) && included == old(included)
      ensures excluded == set q | q in old(excluded) && !Covers(p, q)
    {
      hide Covers, Erasing;
      var unvisited := excluded;
      while unvisited != {}
        invariant unvisited <= excluded <= old(excluded) && included == old(included) && Erasing(start, l)
        invariant forall q :: q in old(excluded) - unvisited ==> (q in excluded <==> !Covers(p, q))
        decreases unvisited
      {
        var q :| q in unvisited;
        if Covers(p, q) {
          Erase(ExcludedPathRemoved(q), start, l);
        }
        unvisited := unvisited - {q};
      }
    }

    /** The loop over the included paths. */
    method EraseIncluded(p: Path, ghost start: seq<Signal>, ghost l: Lists)
      requires Erasing(start, l)
      modifies this`included, this`excluded, this`outbox
      ensures Erasing(start, l) && excluded == old(excluded)
      ensures included == set q | q in old(included) && !Covers(p, q)
    {
      hide Covers, Erasing;
      var unvisited := included;
      while unvisited != {}
        invariant unvisited <= included <= old(included) && excluded == old(excluded) && Erasing(start, l)
        invariant forall q :: q in old(included) - unvisited ==> (q in included <==> !Covers(p, q))
        decreases unvisited
      {
        var q :| q in unvisited;
        if Covers(p, q) {
          Erase(IncludedPathRemoved(q), start, l);
        }
        unvisited := unvisited - {q};
      }
    }

    /** `removeSubDirs`: erases both lists at and below `p`, announcing each erased path once. */
    method RemoveSubDirs(p: Path)
      requires Valid()
      modifies this`included, this`excluded, this`outbox
      ensures Valid() && Own() == Cleared(old(Own()), p) && old(outbox) <= outbox
      ensures AnnouncesErased(outbox[|old(outbox)|..], old(Own()), Own())
    {
      hide Covers, AnnouncesErased;
      NothingErased(Own());
      ghost var start, l := outbox, Own();
      assert outbox[|start|..] == [];
      EraseExcluded(p, start, l);
      EraseIncluded(p, start, l);
    }

    /** `includePath`. */
    method IncludePath(p: Path)
      requires Valid()
      modifies this`included, this`excluded, this`outbox
      ensures Valid() && Own() == AfterInclude(old(Own()), p)
    {
      hide StateOf;
      var state := State(p);
      if state == StateIncluded {
        return;
      }
      RemoveSubDirs(p);
      if state == StateNone || state == StateExcludeInherited {
        ClearedOnlyAt(old(Own()), p);
        Emit(IncludedPathAdded(p), Own());
        included := included + {p};
      }
    }

    /** `excludePath`. */
    method ExcludePath(p: Path)
      requires Valid()
      modifies this`included, this`excluded, this`outbox
      ensures Valid() && Own() == AfterExclude(old(Own()), p)
    {
      hide StateOf;
      var state := State(p);
      if state == StateExcluded {
        return;
      }
      RemoveSubDirs(p);
      if state == StateIncludeInherited {
        ClearedOnlyAt(old(Own()), p);
        Emit(ExcludedPathAdded(p), Own());
        excluded := excluded + {p};
      }
    }

    /** `setData` on a check box: a toggle, with the effect `ToggleExactly` speaks of. */
    method Toggle(p: Path)
      requires Valid()
      modifies this`included, this`excluded, this`outbox
      ensures Valid() && Own() == AfterToggle(old(Own()), p)
      ensures TookEffect(old(Own()), Own(), p, !Included(old(Own()), p)) <==> ListedForAReason(old(Own()), p)
      ensures NormalForm(old(Own())) ==> NormalForm(Own()) && ListedForAReason(old(Own()), p)
    {
      hide NormalForm, TookEffect, AfterInclude, AfterExclude, ListedForAReason;
      ToggleExactly(Own(), p);
      if NormalForm(Own()) {
        NormalFormIsKept(Own(), p);
      }
      var state := State(p);
      if state == StateIncluded || state == StateIncludeInherited {
        ExcludePath(p);
      } else {
        IncludePath(p);
      }
    }

    /** `setIncludedPaths`: the list is replaced first, the differences are announced after. */
    method SetIncludedPaths(paths: set<Path>)
      requires Valid()
      modifies this`included, this`outbox
      ensures Valid() && included == paths
    {
      var removed := included - paths;
      var added := paths - included;
      ghost var shown := included;
      included := paths;
      while removed != {}
        invariant removed <= shown && added !! shown && paths == shown - removed + added
        invariant included == paths && Tracks(Lists(shown, excluded))
        decreases removed
      {
        var p :| p in removed;
        Emit(IncludedPathRemoved(p), Lists(shown, excluded));
        shown := shown - {p};
        removed := removed - {p};
      }
      while added != {}
        invariant added !! shown && paths == shown + added
        invariant included == paths && Tracks(Lists(shown, excluded))
        decreases added
      {
        var p :| p in added;
        Emit(IncludedPathAdded(p), Lists(shown, excluded));
        shown := shown + {p};
        added := added - {p};
      }
    }

    /** `setExcludedPaths`. */
    method SetExcludedPaths(paths: set<Path>)
      requires Valid()
      modifies this`excluded, this`outbox
      ensures Valid() && excluded == paths
    {
      var removed := excluded - paths;
      var added := paths - excluded;
      ghost var shown := excluded;
      excluded := paths;
      while removed != {}
        invariant removed <= shown && added !! shown && paths == shown - removed + added
        invariant excluded == paths && Tracks(Lists(included, shown))
        decreases removed
      {
        var p :| p in removed;
        Emit(ExcludedPathRemoved(p), Lists(included, shown));
        shown := shown - {p};
        removed := removed - {p};
      }
      while added != {}
        invariant added !! shown && paths == shown + added
        invariant excluded == paths && Tracks(Lists(included, shown))
        decreases added
      {
        var p :| p in added;
        Emit(ExcludedPathAdded(p), Lists(included, shown));
        shown := shown + {p};
        added := added - {p};
      }
    }
  }
}
