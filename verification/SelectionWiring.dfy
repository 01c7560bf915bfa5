/**
 Model and scanner together, as the selection widget connects them: the scanner is a mirror
 of the model as soon as every pending signal has been delivered.
 */
module SelectionWiring {
  import opened FolderPaths
  import opened FolderStatus
  import opened FolderSelection
  import opened FileScanner

  ghost predicate Connected(model: FolderSelectionModel, scanner: FileScanner)
    reads model, scanner
  {
    model.Valid() && scanner.Valid() && scanner.Own() == model.delivered
  }

  /** The slot a signal is connected to. */
  method HandOver(scanner: FileScanner, signal: Signal)
    requires scanner.Valid()
    modifies scanner
    ensures scanner.Valid() && scanner.Own() == Receive(old(scanner.Own()), signal)
  {
    hide FileScanner.Valid, Included;
    match signal {
      case IncludedPathAdded(p) => scanner.IncludePath(p);
      case ExcludedPathRemoved(p) => scanner.IncludePath(p);
      case ExcludedPathAdded(p) => scanner.ExcludePath(p);
      case IncludedPathRemoved(p) => scanner.ExcludePath(p);
    }
  }

  /** The worker thread takes the oldest signal off the queue. */
  method Deliver(model: FolderSelectionModel, scanner: FileScanner)
    requires Connected(model, scanner) && model.outbox != []
    modifies model`outbox, model`delivered, scanner
    ensures Connected(model, scanner) && model.outbox == old(model.outbox[1..])
  {
    hide FileScanner.Valid, ReceiveAll, Receive, Mirror;
    ReceiveFirst(model.delivered, model.outbox);
    var signal := model.outbox[0];
    HandOver(scanner, signal);
    model.delivered := Receive(model.delivered, signal);
    model.outbox := model.outbox[1..];
  }

  /** With nothing pending the scanner holds what only one of the model's lists holds. */
  lemma QuietMeansMirrored(model: FolderSelectionModel, scanner: FileScanner)
    requires Connected(model, scanner) && model.outbox == []
    ensures scanner.included == model.included - model.excluded
    ensures scanner.excluded == model.excluded - model.included
  {
  }

  /** Delivering everything: whatever was done to the model before, the scanner mirrors it. */
  method DeliverAll(model: FolderSelectionModel, scanner: FileScanner)
    requires Connected(model, scanner)
    modifies model`outbox, model`delivered, scanner
    ensures Connected(model, scanner) && model.outbox == []
    ensures scanner.included == model.included - model.excluded
    ensures scanner.excluded == model.excluded - model.included
    ensures model.included !! model.excluded ==>
              forall p: Path :: Included(scanner.Own(), p) == Included(model.Own(), p)
  {
    hide Included, FileScanner.Valid, FolderSelectionModel.Valid;
    while model.outbox != []
      invariant Connected(model, scanner)
      decreases |model.outbox|
    {
      Deliver(model, scanner);
    }
    QuietMeansMirrored(model, scanner);
    if model.included !! model.excluded {
      assert scanner.Own() == model.Own();
    }
  }
}
