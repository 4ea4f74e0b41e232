/** Where a drop handler finds its files: the drag payload of a window drop,
    or the element of a file-input change. */
module Selection {
  import opened Wrappers
  import opened FileRecords

  /** An object that may carry a `files` list: a drag payload or an event
      target. A missing list is `None`. */
  datatype FileSource = FileSource(files: Option<seq<File>>)

  /** The parts of a drop or change event the handler reads. A window drop
      carries a drag payload; a file-input change carries only a target. */
  datatype DropEvent = DropEvent(dataTransfer: Option<FileSource>, target: Option<FileSource>)

  /** The file list a drop handler works on. Exactly one source is consulted:
      the drag payload whenever there is one, otherwise the target; a missing
      source or a missing list gives the empty list. */
  function SelectFiles(e: DropEvent): (r: seq<File>)
    ensures e.dataTransfer.Some? && e.dataTransfer.value.files.Some? ==>
              r == e.dataTransfer.value.files.value
    ensures e.dataTransfer.Some? && e.dataTransfer.value.files.None? ==> r == []
    ensures e.dataTransfer.None? && e.target.Some? && e.target.value.files.Some? ==>
              r == e.target.value.files.value
    ensures e.dataTransfer.None? && e.target.Some? && e.target.value.files.None? ==> r == []
    ensures e.dataTransfer.None? && e.target.None? ==> r == []
  {
    if e.dataTransfer.Some? then e.dataTransfer.value.files.GetOr([])
    else if e.target.Some? then e.target.value.files.GetOr([])
    else []
  }

  /** A non-empty selection is, verbatim, the list of the source consulted. */
  lemma SelectionComesFromOneSource(e: DropEvent)
    ensures SelectFiles(e) != [] ==>
              (e.dataTransfer.Some? && e.dataTransfer.value.files == Some(SelectFiles(e)))
              || (e.dataTransfer.None? && e.target.Some? && e.target.value.files == Some(SelectFiles(e)))
  {
  }

  /** The target is never looked at when a drag payload is present, even if
      the payload has no file list. */
  lemma TransferShadowsTarget(e: DropEvent, other: Option<FileSource>)
    requires e.dataTransfer.Some?
    ensures SelectFiles(e.(target := other)) == SelectFiles(e)
  {
  }
}
