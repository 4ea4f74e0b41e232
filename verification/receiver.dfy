/** The receiver's event handlers: a drag-nesting counter driven by window
    drag events, and the drop handler that tags files and hands them over. */
module Receiver {
  import opened Wrappers
  import opened FileRecords
  import opened Selection

  /** The component's own state: how many drag-enters are not yet matched by
      a drag-leave since the last drop. Unbounded in both directions: nothing
      clamps it at zero. */
  datatype State = State(dragLevel: int)

  /** The state a freshly constructed receiver starts in. */
  const Initial := State(0)

  /** The events the receiver listens to. A file-input change is handled by
      the drop handler too, as a `Drop` whose event has no drag payload. */
  datatype Event = DragEnter | DragLeave | DragOver | Drop(drop: DropEvent)

  /** A call the receiver makes to one of the caller's callbacks. */
  datatype Callback =
    | CalledDragEnter
    | CalledDragLeave
    | CalledDragOver
    | CalledFileDrop(event: DropEvent, files: seq<File>)

  /** A callback is only ever the answer to its own kind of event; the drop
      callback receives the very event that was dropped. */
  predicate Answers(c: Callback, e: Event) {
    match c
    case CalledDragEnter => e.DragEnter?
    case CalledDragLeave => e.DragLeave?
    case CalledDragOver => e.DragOver?
    case CalledFileDrop(ev, _) => e.Drop? && ev == e.drop
  }

  /** The result of handling one event. */
  datatype Output = Output(state: State, emitted: seq<Callback>, ids: IdGen)

  /** Handles one event, given whether the zone is open when it arrives and
      the id generator's position. State updates take effect immediately. */
  function Step(s: State, isOpen: bool, e: Event, ids: IdGen): (r: Output)
    ensures |r.emitted| <= 1
    ensures forall c :: c in r.emitted ==> Answers(c, e)
    ensures !e.Drop? ==> r.ids == ids
    ensures e.DragEnter? ==>
              r.state.dragLevel == s.dragLevel + 1 && (CalledDragEnter in r.emitted <==> !isOpen)
    ensures e.DragLeave? ==>
              r.state.dragLevel == s.dragLevel - 1 && (CalledDragLeave in r.emitted <==> r.state.dragLevel == 0)
    ensures e.DragOver? ==> r.state == s && r.emitted == [CalledDragOver]
    ensures e.Drop? ==>
              && r.state == Initial
              && |r.emitted| == 1
              && r.emitted[0].CalledFileDrop?
              && |r.emitted[0].files| == |SelectFiles(e.drop)|
              && r.emitted[0].files == Decorate(SelectFiles(e.drop), ids)
              && r.ids == ids.Advance(|SelectFiles(e.drop)|)
  {
    match e
    case DragEnter =>
      var level := s.dragLevel + 1;
      Output(State(level), if !isOpen then [CalledDragEnter] else [], ids)
    case DragLeave =>
      var level := s.dragLevel - 1;
      Output(State(level), if level == 0 then [CalledDragLeave] else [], ids)
    case DragOver =>
      Output(s, [CalledDragOver], ids)
    case Drop(d) =>
      var fileList := SelectFiles(d);
      var files := Decorate(fileList, ids);
      Output(State(0), [CalledFileDrop(d, files)], ids.Advance(|fileList|))
  }

  /** One event as it reaches the receiver, with the zone's `isOpen` at that moment. */
  datatype Dispatch = Dispatch(isOpen: bool, event: Event)

  /** The outcome of a sequence of events: the final state, the callbacks made
      for each event (one entry per event), and the generator's position. */
  datatype Trace = Trace(state: State, outputs: seq<seq<Callback>>, ids: IdGen)

  /** Handles the events one after another, in dispatch order. */
  function Run(s: State, ds: seq<Dispatch>, ids: IdGen): (t: Trace)
    ensures |t.outputs| == |ds|
    decreases |ds|
  {
    if ds == [] then Trace(s, [], ids)
    else
      var p := Run(s, ds[..|ds| - 1], ids);
      var d := ds[|ds| - 1];
      var o := Step(p.state, d.isOpen, d.event, p.ids);
      Trace(o.state, p.outputs + [o.emitted], o.ids)
  }

  /** The `k`-th entry of a trace is what the `k`-th event emits in the state
      the first `k` events leave behind. */
  lemma {:induction false} RunOutputAt(s: State, ds: seq<Dispatch>, ids: IdGen, k: nat)
    requires k < |ds|
    ensures Run(s, ds, ids).outputs[k]
            == Step(Run(s, ds[..k], ids).state, ds[k].isOpen, ds[k].event, Run(s, ds[..k], ids).ids).emitted
    decreases |ds|
  {
    var n := |ds| - 1;
    if k < n {
      RunOutputAt(s, ds[..n], ids, k);
      assert ds[..n][..k] == ds[..k];
      assert ds[..n][k] == ds[k];
    }
  }

  /** The events of a dispatch sequence. */
  function Events(ds: seq<Dispatch>): (es: seq<Event>)
    ensures |es| == |ds|
    ensures forall i :: 0 <= i < |ds| ==> es[i] == ds[i].event
    decreases |ds|
  {
    if ds == [] then [] else Events(ds[..|ds| - 1]) + [ds[|ds| - 1].event]
  }

  predicate IsEnter(e: Event) { e.DragEnter? }
  predicate IsLeave(e: Event) { e.DragLeave? }

  /** How many events in `es` satisfy `p`. */
  function Count(es: seq<Event>, p: Event -> bool): nat
    decreases |es|
  {
    if es == [] then 0 else (if p(es[0]) then 1 else 0) + Count(es[1..], p)
  }

  lemma {:induction false} CountSnoc(es: seq<Event>, e: Event, p: Event -> bool)
    ensures Count(es + [e], p) == Count(es, p) + (if p(e) then 1 else 0)
    decreases |es|
  {
    if es != [] {
      assert (es + [e])[1..] == es[1..] + [e];
      CountSnoc(es[1..], e, p);
    }
  }

  /** The position just after the last drop in `es`, or 0 when there is none. */
  function SinceLastDrop(es: seq<Event>): (r: nat)
    ensures r <= |es|
    ensures forall i :: r <= i < |es| ==> !es[i].Drop?
    ensures r > 0 ==> es[r - 1].Drop?
    decreases |es|
  {
    if es == [] then 0
    else if es[|es| - 1].Drop? then |es|
    else SinceLastDrop(es[..|es| - 1])
  }

  /** The nesting balance: drag-enters minus drag-leaves since the last drop
      (or since the start, when nothing has been dropped). */
  function Balance(es: seq<Event>): int {
    var open := es[SinceLastDrop(es)..];
    Count(open, IsEnter) - Count(open, IsLeave)
  }

  lemma BalanceSnoc(es: seq<Event>, e: Event)
    ensures Balance(es + [e])
            == if e.Drop? then 0
               else Balance(es) + (if e.DragEnter? then 1 else 0) - (if e.DragLeave? then 1 else 0)
  {
    var es' := es + [e];
    if e.Drop? {
      assert SinceLastDrop(es') == |es'|;
    } else {
      assert es'[..|es'| - 1] == es;
      var m := SinceLastDrop(es);
      assert SinceLastDrop(es') == m;
      assert es'[m..] == es[m..] + [e];
      CountSnoc(es[m..], e, IsEnter);
      CountSnoc(es[m..], e, IsLeave);
    }
  }

  /** Starting from a fresh receiver, the counter always equals the nesting
      balance of the events seen so far. */
  lemma {:induction false} LevelIsBalance(ds: seq<Dispatch>, ids: IdGen)
    ensures Run(Initial, ds, ids).state.dragLevel == Balance(Events(ds))
    decreases |ds|
  {
    if ds == [] {
      assert Events(ds) == [];
    } else {
      var n := |ds| - 1;
      LevelIsBalance(ds[..n], ids);
      assert Events(ds) == Events(ds[..n]) + [ds[n].event];
      BalanceSnoc(Events(ds[..n]), ds[n].event);
    }
  }

  /** The caller's drag-leave callback fires at exactly the events that are
      drag-leaves bringing the nesting balance back to zero, and never on an
      intermediate leave. */
  lemma LeaveFiresExactlyAtBalanceZero(ds: seq<Dispatch>, ids: IdGen, k: nat)
    requires k < |ds|
    ensures CalledDragLeave in Run(Initial, ds, ids).outputs[k]
            <==> ds[k].event.DragLeave? && Balance(Events(ds[..k + 1])) == 0
  {
    RunOutputAt(Initial, ds, ids, k);
    var before := Run(Initial, ds[..k], ids);
    var o := Step(before.state, ds[k].isOpen, ds[k].event, before.ids);
    assert ds[..k + 1][..k] == ds[..k];
    assert ds[..k + 1][k] == ds[k];
    assert Run(Initial, ds[..k + 1], ids).state == o.state;
    LevelIsBalance(ds[..k + 1], ids);
    if !ds[k].event.DragLeave? {
      assert !Answers(CalledDragLeave, ds[k].event);
    }
  }

  /** With no drop in between, the balance is plain enters minus leaves. */
  lemma BalanceWithoutDrops(es: seq<Event>)
    requires forall i :: 0 <= i < |es| ==> !es[i].Drop?
    ensures Balance(es) == Count(es, IsEnter) - Count(es, IsLeave)
  {
  }

  /** For a drag that starts from a fresh receiver and drops nothing, the
      drag-leave callback fires exactly when as many leaves as enters have
      been seen. */
  lemma LeaveFiresWhenEntersMatched(ds: seq<Dispatch>, ids: IdGen, k: nat)
    requires k < |ds|
    requires forall i :: 0 <= i < |ds| ==> !ds[i].event.Drop?
    ensures CalledDragLeave in Run(Initial, ds, ids).outputs[k]
            <==> ds[k].event.DragLeave?
                 && Count(Events(ds[..k + 1]), IsEnter) == Count(Events(ds[..k + 1]), IsLeave)
  {
    LeaveFiresExactlyAtBalanceZero(ds, ids, k);
    BalanceWithoutDrops(Events(ds[..k + 1]));
  }

  /** Every drop, and nothing else, produces a drop callback, and it produces
      exactly one, even when no files were found. */
  lemma FileDropOncePerDrop(s: State, ds: seq<Dispatch>, ids: IdGen, k: nat)
    requires k < |ds|
    ensures var out := Run(s, ds, ids).outputs[k];
            ds[k].event.Drop? <==> (|out| == 1 && out[0].CalledFileDrop?)
  {
  }

  /** The files handed to the drop callback in a list of callbacks, in order. */
  function FilesIn(cs: seq<Callback>): seq<File>
    decreases |cs|
  {
    if cs == [] then []
    else (if cs[0].CalledFileDrop? then cs[0].files else []) + FilesIn(cs[1..])
  }

  /** Every file handed to the drop callback over a whole trace, in order. */
  function DroppedFiles(outputs: seq<seq<Callback>>): seq<File>
    decreases |outputs|
  {
    if outputs == [] then []
    else DroppedFiles(outputs[..|outputs| - 1]) + FilesIn(outputs[|outputs| - 1])
  }

  /** Every file the drop handler selects over a sequence of events, in order. */
  function Selected(ds: seq<Dispatch>): seq<File>
    decreases |ds|
  {
    if ds == [] then []
    else
      var last := ds[|ds| - 1].event;
      Selected(ds[..|ds| - 1]) + (if last.Drop? then SelectFiles(last.drop) else [])
  }

  /** Over any run, the files the caller receives are exactly the selected
      files, in selection order, tagged with consecutive draws of the id
      generator; and the generator has advanced by one draw per file. */
  lemma {:induction false} RunDecoratesSelected(s: State, ds: seq<Dispatch>, ids: IdGen)
    ensures DroppedFiles(Run(s, ds, ids).outputs) == Decorate(Selected(ds), ids)
    ensures Run(s, ds, ids).ids == ids.Advance(|Selected(ds)|)
    decreases |ds|
  {
    if ds != [] {
      var n := |ds| - 1;
      var p := Run(s, ds[..n], ids);
      RunDecoratesSelected(s, ds[..n], ids);
      var o := Step(p.state, ds[n].isOpen, ds[n].event, p.ids);
      var outs := Run(s, ds, ids).outputs;
      assert outs == p.outputs + [o.emitted];
      assert outs[..|outs| - 1] == p.outputs;
      var prior := Selected(ds[..n]);
      if ds[n].event.Drop? {
        var added := SelectFiles(ds[n].event.drop);
        assert o.emitted[1..] == [];
        assert FilesIn(o.emitted) == Decorate(added, p.ids) + FilesIn([]);
        DecorateAppend(prior, added, ids);
        assert ids.Advance(|prior|).Advance(|added|) == ids.Advance(|prior + added|);
      } else {
        assert o.emitted == [] || (o.emitted == [o.emitted[0]] && !o.emitted[0].CalledFileDrop?);
        assert FilesIn(o.emitted) == [];
        assert Selected(ds) == prior;
      }
    }
  }

  /** With a generator that never repeats itself, no two files handed to the
      caller over a whole run share an id, even across separate drops. */
  lemma RunIdsDistinct(s: State, ds: seq<Dispatch>, ids: IdGen)
    requires Injective(ids)
    ensures var files := DroppedFiles(Run(s, ds, ids).outputs);
            && (forall i :: 0 <= i < |files| ==> files[i].tag.Some?)
            && (forall i, j :: 0 <= i < j < |files| ==> files[i].tag.value.id != files[j].tag.value.id)
  {
    RunDecoratesSelected(s, ds, ids);
    DecoratedIdsDistinct(Selected(ds), ids);
  }
}
