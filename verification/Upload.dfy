/** The upload generator of src/upload.rs: one `stream::unfold` step, and draining it. */
module Upload {
  import opened Prelude

  type Bytes = seq<byte>

  const MAX_CHUNK := 64 * 1024

  datatype Progress = Waiting | Writing | Done

  /** What one `__next__` of the source comes to: bytes, a Python exception, or a blocking task that died.
      A source that has no event left raises StopIteration. */
  datatype Event = Gives(bytes: Bytes) | Raises | Dies

  datatype Item = Chunk(bytes: Bytes) | IoError

  /** The bytes a source gives before it ends or breaks off. */
  function Contents(source: seq<Event>): Bytes
  {
    if source == [] || !source[0].Gives? then [] else source[0].bytes + Contents(source[1..])
  }

  /** The event that breaks the source off, if any. */
  function Break(source: seq<Event>): Option<Event>
  {
    if source == [] then None
    else if source[0].Gives? then Break(source[1..])
    else Some(source[0])
  }

  class Upload {
    /** Answers of the stop flag, load by load. */
    const stop: nat -> bool
    var loads: nat
    var iterator_: Option<seq<Event>>
    var pending: Bytes
    var progress: Progress
    var error: bool

    constructor (source: seq<Event>, buffered: Option<Bytes>, stop: nat -> bool)
      ensures this.stop == stop && progress == Waiting && !error && !StopSeen()
      ensures Left() == if buffered.Some? then buffered.value else Contents(source)
      ensures Broken() == if buffered.Some? then None else Break(source)
    {
      this.stop := stop;
      loads, progress, error := 0, Waiting, false;
      iterator_ := if buffered.Some? then None else Some(source);
      pending := if buffered.Some? then buffered.value else [];
    }

    /** What is still to be sent. */
    ghost function Left(): Bytes
      reads this
    {
      pending + if iterator_.None? then [] else Contents(iterator_.value)
    }

    ghost function Broken(): Option<Event>
      reads this
    {
      if iterator_.None? then None else Break(iterator_.value)
    }

    ghost function Size(): nat
      reads this
    {
      |pending| + SourceSize(iterator_)
    }

    /** Some load so far found the flag set. */
    ghost predicate StopSeen()
      reads this
    {
      exists k | 0 <= k < loads :: stop(k)
    }

    /** `stop.load()` */
    method Stopped() returns (b: bool)
      modifies this`loads
      ensures b == stop(old(loads)) && loads == old(loads) + 1
      ensures StopSeen() == (old(StopSeen()) || b)
    {
      b := stop(loads);
      loads := loads + 1;
    }

    /** One step of the stream. A chunk is only given out if every load on the way found the flag clear, and a
        chunk just pulled has been checked for once more. */
    method Next() returns (item: Option<Item>)
      modifies this
      ensures old(StopSeen()) ==> StopSeen()
      ensures old(loads) < loads && (stop(old(loads)) ==> item.None?)
      ensures item.Some? ==> StopSeen() == old(StopSeen())
      ensures item.Some? && item.value.Chunk? && old(pending) == [] ==> old(loads) + 2 <= loads
      ensures error == (old(error) || (item == Some(IoError) && old(Broken()) == Some(Raises)))
      ensures item.Some? && item.value.Chunk? ==>
                && 1 <= |item.value.bytes| <= 65536
                && old(Left()) == item.value.bytes + Left() && Broken() == old(Broken())
                && progress == Writing && Size() < old(Size())
                && (|item.value.bytes| == 65536 || pending == [])
      ensures item == Some(IoError) ==>
                && progress == Done && old(Left()) == [] && old(Broken()).Some?
                && Left() == [] && Broken().None?
      ensures item.None? ==> progress == Done && (StopSeen() || (old(Left()) == [] && old(Broken()).None?))
    {
      var stopped := Stopped();
      if stopped {
        progress := Done;
        return None;
      }
      if iterator_.None? && pending == [] {
        progress := Done;
        return None;
      }
      progress := Writing;
      hide Contents, Break, EventsSize;
      while true
        invariant iterator_.Some? || pending != []
        invariant Left() == old(Left()) && Broken() == old(Broken()) && Size() <= old(Size())
        invariant progress == Writing && error == old(error)
        invariant StopSeen() == old(StopSeen()) && old(loads) < loads
        invariant old(pending) == [] && pending != [] ==> old(loads) + 2 <= loads
        decreases SourceSize(iterator_), |pending|
      {
        if pending != [] {
          var n := if |pending| < MAX_CHUNK then |pending| else MAX_CHUNK;
          var chunk := pending[..n];
          pending := pending[n..];
          assert old(Left()) == chunk + Left();
          return Some(Chunk(chunk));
        }
        var pulled := Pull();
        if pulled.Some? {
          return pulled.value;
        }
      }
    }

    /** One round of the loop with nothing pending: None when the source gave bytes and the loop goes on.
        The bare exit for an absent iterator would need it absent here. */
    method Pull() returns (r: Option<Option<Item>>)
      requires pending == [] && iterator_.Some? && progress == Writing
      modifies this
      ensures old(StopSeen()) ==> StopSeen()
      ensures r != Some(None) ==> StopSeen() == old(StopSeen())
      ensures old(loads) <= loads && (r.None? ==> loads == old(loads) + 1)
      ensures r.None? ==>
                && iterator_.Some? && progress == Writing && error == old(error)
                && Left() == old(Left()) && Broken() == old(Broken()) && Size() <= old(Size())
                && SourceSize(iterator_) < SourceSize(old(iterator_))
      ensures r == Some(None) ==>
                progress == Done && error == old(error) && (StopSeen() || (old(Left()) == [] && old(Broken()).None?))
      ensures r.Some? && r.value.Some? ==>
                && r.value == Some(IoError) && progress == Done && old(Left()) == [] && old(Broken()).Some?
                && Left() == [] && Broken().None? && error == (old(error) || old(Broken()) == Some(Raises))
    {
      var current := iterator_.value;
      iterator_ := None;
      if current != [] && current[0].Dies? {
        progress := Done;
        return Some(Some(IoError));
      }
      var stopped := Stopped();
      if stopped {
        progress := Done;
        return Some(None);
      }
      iterator_ := Some(if current == [] then [] else current[1..]);
      if current == [] {
        progress := Done;
        return Some(None);
      }
      match current[0]
      case Gives(bytes) =>
        pending := bytes;
        r := None;
      case Raises =>
        error := true;
        progress := Done;
        iterator_ := None;
        r := Some(Some(IoError));
    }
  }

  function SourceSize(source: Option<seq<Event>>): nat
  {
    if source.None? then 0 else EventsSize(source.value)
  }

  function EventsSize(source: seq<Event>): nat
  {
    if source == [] then 0
    else 1 + (if source[0].Gives? then |source[0].bytes| else 0) + EventsSize(source[1..])
  }

  /** How a drained upload ended. */
  datatype End = Finished | Failed

  /** Draining the stream: chunks of 1 to 65536 bytes that make up a prefix of the source, all of it unless
      the upload was stopped, and exactly what the source gave if it broke off; the end is always published. */
  method Drain(upload: Upload) returns (chunks: seq<Bytes>, end: End)
    modifies upload
    ensures forall i | 0 <= i < |chunks| :: 1 <= |chunks[i]| <= 65536
    ensures upload.progress == Done
    ensures Concat(chunks) <= old(upload.Left())
    ensures end == Failed ==> Concat(chunks) == old(upload.Left()) && old(upload.Broken()).Some?
    ensures end == Finished && !upload.StopSeen() ==> Concat(chunks) == old(upload.Left()) && old(upload.Broken()).None?
    ensures upload.error == (old(upload.error) || (end == Failed && old(upload.Broken()) == Some(Raises)))
  {
    hide Contents, Break, EventsSize;
    chunks := [];
    while true
      invariant forall i | 0 <= i < |chunks| :: 1 <= |chunks[i]| <= MAX_CHUNK
      invariant Concat(chunks) + upload.Left() == old(upload.Left())
      invariant upload.Broken() == old(upload.Broken()) && upload.error == old(upload.error)
      decreases upload.Size()
    {
      ghost var left := upload.Left();
      var item := upload.Next();
      match item
      case None =>
        return chunks, Finished;
      case Some(IoError) =>
        return chunks, Failed;
      case Some(Chunk(bytes)) =>
        ConcatSnoc(chunks, bytes);
        Regroup(Concat(chunks), bytes, upload.Left());
        chunks := chunks + [bytes];
    }
  }
}
