/** The file records the receiver hands to its caller: a native file handle
    tagged with an id, an upload status, a progress figure and a source. */
module FileRecords {
  import opened Wrappers

  /** An id produced by the id generator; opaque to the receiver. */
  type Id = string

  /** Upload status. The receiver only ever writes `Pending`; the other
      values belong to the caller, which updates records after hand-off. */
  datatype Status = Pending | Other(name: string)

  /** The host-provided file object as the browser delivers it. Its content
      is never read or changed by the receiver. */
  datatype Handle = Handle(name: string, size: nat, mimeType: string)

  /** The four fields the receiver writes onto a file object. */
  datatype Tag = Tag(id: Id, status: Status, progress: int, src: Option<string>)

  /** A file object: the native handle plus whatever tag it currently carries
      (none when it comes straight from the browser). */
  datatype File = File(handle: Handle, tag: Option<Tag>)

  /** The tag a freshly dropped file receives: pending, no progress, no source. */
  function FreshTag(id: Id): Tag {
    Tag(id, Pending, 0, None)
  }

  /** The id generator: an opaque stream of ids and how many have been drawn. */
  datatype IdGen = IdGen(stream: nat -> Id, drawn: nat) {

    /** The id the `k`-th next draw returns. */
    function Peek(k: nat): Id {
      stream(drawn + k)
    }

    /** The generator after `n` more draws. */
    function Advance(n: nat): IdGen {
      IdGen(stream, drawn + n)
    }
  }

  /** From its current position on, the generator never hands out the same
      id twice. Ids drawn before `g.drawn` are not constrained. */
  ghost predicate Injective(g: IdGen) {
    forall a: nat, b: nat :: g.drawn <= a && g.drawn <= b && g.stream(a) == g.stream(b) ==> a == b
  }

  /** Tags every file in order, drawing one id per file: the `i`-th file gets
      the `i`-th id drawn. */
  function Decorate(files: seq<File>, g: IdGen): (r: seq<File>)
    ensures |r| == |files|
    ensures forall i :: 0 <= i < |files| ==>
              r[i].handle == files[i].handle && r[i].tag == Some(FreshTag(g.Peek(i)))
    decreases |files|
  {
    if files == [] then []
    else [File(files[0].handle, Some(FreshTag(g.Peek(0))))] + Decorate(files[1..], g.Advance(1))
  }

  /** The native handles of a list of file objects, in order. */
  function Handles(files: seq<File>): seq<Handle>
    decreases |files|
  {
    if files == [] then [] else [files[0].handle] + Handles(files[1..])
  }

  /** Decoration only adds metadata: stripping the tags gives back exactly the
      handles that went in, in the same order. */
  lemma {:induction false} DecorateKeepsHandles(files: seq<File>, g: IdGen)
    ensures Handles(Decorate(files, g)) == Handles(files)
    decreases |files|
  {
    if files != [] {
      var r := Decorate(files, g);
      assert r[1..] == Decorate(files[1..], g.Advance(1));
      DecorateKeepsHandles(files[1..], g.Advance(1));
    }
  }

  /** Decorating a concatenation is decorating the first part and then the
      second part with the generator moved past the first part's draws. */
  lemma {:induction false} DecorateAppend(a: seq<File>, b: seq<File>, g: IdGen)
    ensures Decorate(a + b, g) == Decorate(a, g) + Decorate(b, g.Advance(|a|))
    decreases |a|
  {
    if a == [] {
      assert a + b == b;
    } else {
      assert (a + b)[0] == a[0];
      assert (a + b)[1..] == a[1..] + b;
      DecorateAppend(a[1..], b, g.Advance(1));
      assert g.Advance(1).Advance(|a| - 1) == g.Advance(|a|);
    }
  }

  /** Decoration depends only on the native handles: whatever tags the input
      files carried before are overwritten, not kept or accumulated. */
  lemma {:induction false} DecorateDependsOnlyOnHandles(a: seq<File>, b: seq<File>, g: IdGen)
    requires Handles(a) == Handles(b)
    ensures Decorate(a, g) == Decorate(b, g)
    decreases |a|
  {
    if a != [] && b != [] {
      assert Handles(a)[0] == a[0].handle && Handles(b)[0] == b[0].handle;
      assert Handles(a[1..]) == Handles(a)[1..] && Handles(b[1..]) == Handles(b)[1..];
      DecorateDependsOnlyOnHandles(a[1..], b[1..], g.Advance(1));
    }
  }

  /** Decorating an already decorated list with the same ids changes nothing. */
  lemma DecorateIdempotent(files: seq<File>, g: IdGen)
    ensures Decorate(Decorate(files, g), g) == Decorate(files, g)
  {
    DecorateKeepsHandles(files, g);
    DecorateDependsOnlyOnHandles(Decorate(files, g), files, g);
  }

  /** With a generator that never repeats itself, the records of one drop
      carry pairwise distinct ids. */
  lemma DecoratedIdsDistinct(files: seq<File>, g: IdGen)
    requires Injective(g)
    ensures forall i, j :: 0 <= i < j < |files| ==>
              Decorate(files, g)[i].tag.value.id != Decorate(files, g)[j].tag.value.id
  {
  }
}
