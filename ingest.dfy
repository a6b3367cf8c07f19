/**
 * The ingest tick (`process_transcription`): the queue rows whose content is
 * null are fetched in ascending timestamp order; for each one whose audio
 * file is present the file is transcribed, removed, and the prepared note
 * is stored as the row's content.
 *
 * Speech recognition and note preparation are parameters returning `None`
 * where the source raises; a raise ends the tick, as nothing in the loop
 * catches it. The upload directory is the set of file names present.
 */
module Ingest {
  import opened Wrappers
  import Sorting

  /** A row of the `queue` table; `content` is null until the note is prepared. */
  datatype QueueItem = QueueItem(
    ownerId: int, mrn: int, transcriptionId: string, timestamp: int,
    filename: string, content: Option<string>)

  /** `not upload.content`: null and the empty text are both falsy. */
  predicate Unprocessed(item: QueueItem)
  {
    item.content.None? || item.content.value == ""
  }

  /** The queue, the files present, and whether a raise has ended the tick. */
  datatype Stage = Stage(items: seq<QueueItem>, files: set<string>, aborted: bool)

  // ---------------------------------------------------------------------------
  // The query
  // ---------------------------------------------------------------------------

  /** The indices of the rows with null content, in table order (`filter_by(content=None)`). */
  function NullContent(items: seq<QueueItem>, n: nat): (r: seq<nat>)
    requires n <= |items|
    ensures forall k :: 0 <= k < |r| ==> r[k] < n
  {
    if n == 0 then []
    else if items[n - 1].content.None? then NullContent(items, n - 1) + [n - 1]
    else NullContent(items, n - 1)
  }

  function TimestampOf(items: seq<QueueItem>): nat -> int
  {
    (i: nat) => if i < |items| then items[i].timestamp else 0
  }

  /** `order_by(Queue.timestamp.asc())`: rows with equal timestamps keep table order. */
  function PendingOrder(items: seq<QueueItem>): seq<nat>
  {
    Sorting.SortBy(NullContent(items, |items|), TimestampOf(items))
  }

  // ---------------------------------------------------------------------------
  // One visit and the whole tick
  // ---------------------------------------------------------------------------

  /** The loop body for the row at index `i`. */
  function Visit(st: Stage, i: nat, transcribe: string -> Option<string>, prepare: string -> Option<string>): (r: Stage)
    ensures |r.items| == |st.items|
    ensures st.aborted ==> r == st
    ensures forall j :: 0 <= j < |st.items| && j != i ==> r.items[j] == st.items[j]
    ensures r.files <= st.files
    ensures r.files != st.files ==> i < |st.items| && Unprocessed(st.items[i]) && r.files == st.files - {st.items[i].filename}
    ensures r.items != st.items ==> !r.aborted && r.items[i].content.Some? && st.items[i].filename !in r.files
  {
    if st.aborted || i >= |st.items| then st
    else
      var item := st.items[i];
      if !Unprocessed(item) || item.filename !in st.files then st
      else match transcribe(item.filename)
        case None => st.(aborted := true)
        case Some(talk) =>
          var files := st.files - {item.filename};
          match prepare(talk)
          case None => Stage(st.items, files, true)
          case Some(content) => Stage(st.items[i := item.(content := Some(content))], files, false)
  }

  /** The stage after visiting the rows of `order` one after another. */
  function Run(st: Stage, order: seq<nat>, transcribe: string -> Option<string>, prepare: string -> Option<string>): (r: Stage)
    ensures |r.items| == |st.items|
  {
    if order == [] then st
    else Visit(Run(st, order[..|order| - 1], transcribe, prepare), order[|order| - 1], transcribe, prepare)
  }

  /** The tick's whole effect on a queue and an upload directory. */
  function Tick(items: seq<QueueItem>, files: set<string>, transcribe: string -> Option<string>, prepare: string -> Option<string>): Stage
  {
    Run(Stage(items, files, false), PendingOrder(items), transcribe, prepare)
  }

  /** The queue table and the upload directory as the scheduler's job sees them. */
  class IngestQueue {
    var items: seq<QueueItem>
    var files: set<string>

    constructor (items: seq<QueueItem>, files: set<string>)
      ensures this.items == items && this.files == files
    {
      this.items := items;
      this.files := files;
    }

    /** `process_transcription`; `aborted` tells whether a raise ended the tick early. */
    method ProcessTranscription(transcribe: string -> Option<string>, prepare: string -> Option<string>) returns (aborted: bool)
      modifies this
      ensures Stage(items, files, aborted) == Tick(old(items), old(files), transcribe, prepare)
    {
      var uploads := PendingOrder(items);
      ghost var start := Stage(items, files, false);
      for k := 0 to |uploads|
        invariant Stage(items, files, false) == Run(start, uploads[..k], transcribe, prepare)
      {
        assert uploads[..k + 1][..k] == uploads[..k];
        var i := uploads[k];
        if i < |items| {
          var upload := items[i];
          if Unprocessed(upload) {
            var filename := upload.filename;
            if filename in files {
              var talkToText := transcribe(filename);
              if talkToText.None? {
                aborted := true;
                assert uploads[..|uploads|] == uploads;
                RunAbortedStays(start, uploads, k + 1, transcribe, prepare);
                return;
              }
              files := files - {filename};
              var result := prepare(talkToText.value);
              if result.None? {
                aborted := true;
                assert uploads[..|uploads|] == uploads;
                RunAbortedStays(start, uploads, k + 1, transcribe, prepare);
                return;
              }
              items := items[i := upload.(content := Some(result.value))];
            }
          }
        }
      }
      assert uploads[..|uploads|] == uploads;
      aborted := false;
    }
  }

  /** Once a raise has ended the tick, the remaining rows are not visited. */
  lemma {:induction false} RunAbortedStays(st: Stage, order: seq<nat>, k: nat, transcribe: string -> Option<string>, prepare: string -> Option<string>)
    requires k <= |order|
    requires Run(st, order[..k], transcribe, prepare).aborted
    ensures Run(st, order, transcribe, prepare) == Run(st, order[..k], transcribe, prepare)
    decreases |order| - k
  {
    if k < |order| {
      assert order[..k + 1][..k] == order[..k];
      RunAbortedStays(st, order, k + 1, transcribe, prepare);
    } else {
      assert order[..k] == order;
    }
  }

  // ---------------------------------------------------------------------------
  // What a tick does and does not change
  // ---------------------------------------------------------------------------

  /** A row is left alone, or only its falsy content is replaced by a text. */
  predicate Changed(before: QueueItem, after: QueueItem)
  {
    after == before || (Unprocessed(before) && after.content.Some? && after == before.(content := after.content))
  }

  /** No row visited by `order` has the audio file `f`. */
  predicate NoRowWithFile(items: seq<QueueItem>, order: seq<nat>, f: string)
  {
    forall k :: 0 <= k < |order| && order[k] < |items| ==> items[order[k]].filename != f
  }

  /**
   * The tick keeps the queue's length, changes rows only by setting their
   * falsy content, only removes files and never adds one, and never clears
   * an abort.
   */
  lemma {:induction false} RunFrame(st: Stage, order: seq<nat>, transcribe: string -> Option<string>, prepare: string -> Option<string>)
    ensures var end := Run(st, order, transcribe, prepare);
      && |end.items| == |st.items|
      && (forall j :: 0 <= j < |st.items| ==> Changed(st.items[j], end.items[j]))
      && (forall j :: 0 <= j < |st.items| && j !in order ==> end.items[j] == st.items[j])
      && end.files <= st.files
      && (forall f :: f in st.files - end.files ==> exists k :: 0 <= k < |order| && order[k] < |st.items| && st.items[order[k]].filename == f)
      && (forall f :: f in st.files && NoRowWithFile(st.items, order, f) ==> f in end.files)
      && (st.aborted ==> end == st)
      && (!end.aborted ==> !st.aborted)
  {
    if order != [] {
      var prefix := order[..|order| - 1];
      var i := order[|order| - 1];
      RunFrame(st, prefix, transcribe, prepare);
      var mid := Run(st, prefix, transcribe, prepare);
      var end := Run(st, order, transcribe, prepare);
      assert end == Visit(mid, i, transcribe, prepare);
      forall j | 0 <= j < |st.items|
        ensures Changed(st.items[j], end.items[j])
      {
        assert Changed(mid.items[j], end.items[j]);
      }
      forall j | 0 <= j < |st.items| && j !in order
        ensures end.items[j] == st.items[j]
      {
        assert forall x :: x in prefix ==> x in order;
      }
      forall f | f in st.files - end.files
        ensures exists k :: 0 <= k < |order| && order[k] < |st.items| && st.items[order[k]].filename == f
      {
        if f in mid.files {
          assert i < |st.items| && mid.items[i].filename == f;
          assert Changed(st.items[i], mid.items[i]);
          assert order[|order| - 1] == i;
        } else {
          assert f in st.files - mid.files;
          var k :| 0 <= k < |prefix| && prefix[k] < |st.items| && st.items[prefix[k]].filename == f;
          assert order[k] == prefix[k];
        }
      }
      forall f | f in st.files && NoRowWithFile(st.items, order, f)
        ensures f in end.files
      {
        assert NoRowWithFile(st.items, prefix, f) by {
          forall k | 0 <= k < |prefix| && prefix[k] < |st.items|
            ensures st.items[prefix[k]].filename != f
          {
            assert prefix[k] == order[k];
          }
        }
        if i < |st.items| {
          assert order[|order| - 1] == i;
          assert Changed(st.items[i], mid.items[i]);
        }
      }
    }
  }

  /** A row whose audio file is absent when the tick starts stays as it was. */
  lemma {:induction false} AbsentFileUntouched(st: Stage, order: seq<nat>, j: nat, transcribe: string -> Option<string>, prepare: string -> Option<string>)
    requires j < |st.items| && st.items[j].filename !in st.files
    ensures Run(st, order, transcribe, prepare).items[j] == st.items[j]
  {
    if order != [] {
      var prefix := order[..|order| - 1];
      AbsentFileUntouched(st, prefix, j, transcribe, prepare);
      RunFrame(st, prefix, transcribe, prepare);
    }
  }

  /** A row the tick changed had its content set and its audio file removed. */
  lemma {:induction false} ProcessedFileRemoved(st: Stage, order: seq<nat>, j: nat, transcribe: string -> Option<string>, prepare: string -> Option<string>)
    requires j < |st.items|
    requires Run(st, order, transcribe, prepare).items[j] != st.items[j]
    ensures Run(st, order, transcribe, prepare).items[j].content.Some?
    ensures st.items[j].filename !in Run(st, order, transcribe, prepare).files
  {
    RunFrame(st, order, transcribe, prepare);
    var prefix := order[..|order| - 1];
    var mid := Run(st, prefix, transcribe, prepare);
    RunFrame(st, prefix, transcribe, prepare);
    if mid.items[j] != st.items[j] {
      ProcessedFileRemoved(st, prefix, j, transcribe, prepare);
    } else {
      assert Changed(st.items[j], mid.items[j]);
    }
  }

  /**
   * Progress: when the tick finishes without a raise, a row visited exactly
   * once, pending at the start, whose file was present and is not shared
   * with any other row, has its content set.
   */
  lemma {:induction false} UniqueFileProcessed(st: Stage, order: seq<nat>, j: nat, transcribe: string -> Option<string>, prepare: string -> Option<string>)
    requires j < |st.items| && Unprocessed(st.items[j]) && st.items[j].filename in st.files
    requires forall j' :: 0 <= j' < |st.items| && j' != j ==> st.items[j'].filename != st.items[j].filename
    requires multiset(order)[j] == 1
    requires !Run(st, order, transcribe, prepare).aborted
    ensures Run(st, order, transcribe, prepare).items[j].content.Some?
  {
    var prefix := order[..|order| - 1];
    var i := order[|order| - 1];
    assert order == prefix + [i];
    var mid := Run(st, prefix, transcribe, prepare);
    RunFrame(st, prefix, transcribe, prepare);
    if i == j {
      assert multiset(prefix)[j] == 0;
      assert j !in prefix;
      assert mid.items[j] == st.items[j];
      var f := st.items[j].filename;
      assert NoRowWithFile(st.items, prefix, f) by {
        forall k | 0 <= k < |prefix| && prefix[k] < |st.items|
          ensures st.items[prefix[k]].filename != f
        {
          assert prefix[k] in prefix;
        }
      }
      assert !mid.aborted;
    } else {
      assert multiset(prefix)[j] == 1;
      UniqueFileProcessed(st, prefix, j, transcribe, prepare);
    }
  }

  // ---------------------------------------------------------------------------
  // The visiting order
  // ---------------------------------------------------------------------------

  /** Each row with null content is listed once, and no other row is. */
  lemma {:induction false} NullContentExact(items: seq<QueueItem>, n: nat, j: nat)
    requires n <= |items|
    ensures multiset(NullContent(items, n))[j] == if j < n && items[j].content.None? then 1 else 0
  {
    if n > 0 {
      NullContentExact(items, n - 1, j);
    }
  }

  /**
   * The tick visits exactly the rows with null content, each once, in
   * ascending timestamp order.
   */
  lemma PendingOrderCorrect(items: seq<QueueItem>)
    ensures forall j: nat :: multiset(PendingOrder(items))[j] == if j < |items| && items[j].content.None? then 1 else 0
    ensures forall a, b :: 0 <= a < b < |PendingOrder(items)| ==>
      PendingOrder(items)[a] < |items| && PendingOrder(items)[b] < |items| &&
      items[PendingOrder(items)[a]].timestamp <= items[PendingOrder(items)[b]].timestamp
  {
    var pending := NullContent(items, |items|);
    Sorting.SortByCorrect(pending, TimestampOf(items));
    forall j: nat
      ensures multiset(PendingOrder(items))[j] == if j < |items| && items[j].content.None? then 1 else 0
    {
      NullContentExact(items, |items|, j);
    }
    forall a | 0 <= a < |PendingOrder(items)|
      ensures PendingOrder(items)[a] < |items|
    {
      assert PendingOrder(items)[a] in multiset(pending);
    }
  }

  /**
   * After a tick that ends without a raise, every row that had null content
   * and its own audio file present has its content set.
   */
  lemma TickProcessesUniqueFiles(items: seq<QueueItem>, files: set<string>, j: nat, transcribe: string -> Option<string>, prepare: string -> Option<string>)
    requires j < |items| && items[j].content.None? && items[j].filename in files
    requires forall j' :: 0 <= j' < |items| && j' != j ==> items[j'].filename != items[j].filename
    requires !Tick(items, files, transcribe, prepare).aborted
    ensures Tick(items, files, transcribe, prepare).items[j].content.Some?
  {
    PendingOrderCorrect(items);
    UniqueFileProcessed(Stage(items, files, false), PendingOrder(items), j, transcribe, prepare);
  }

  /** A row that already had content when the tick started is never touched. */
  lemma TickSkipsDone(items: seq<QueueItem>, files: set<string>, j: nat, transcribe: string -> Option<string>, prepare: string -> Option<string>)
    requires j < |items| && items[j].content.Some?
    ensures Tick(items, files, transcribe, prepare).items[j] == items[j]
  {
    PendingOrderCorrect(items);
    assert j !in PendingOrder(items);
    RunFrame(Stage(items, files, false), PendingOrder(items), transcribe, prepare);
  }
}
