/**
 * The two uploads that report progress. Their callbacks run whenever the library
 * calls them, so several uploads append to the one shared store in any
 * interleaving; each upload is an object with one method per callback.
 */
module Uploads {
  import opened Wrappers
  import opened UploadSessions

  datatype ProgressEvent = ProgressEvent(loaded: int, total: Option<int>, part: Option<int>)

  function EventSnapshot(e: ProgressEvent): Snapshot {
    Snapshot(e.loaded, e.total, e.part, None)
  }

  function StrategyOf(multipart: bool): Strategy {
    if multipart then Multipart else Single
  }

  /** The byte count of the latest event; zero before any event. */
  function LastLoaded(events: seq<ProgressEvent>): int {
    if events == [] then 0 else events[|events| - 1].loaded
  }

  function EventSnapshots(events: seq<ProgressEvent>): (r: seq<Snapshot>)
    ensures |r| == |events|
    ensures forall i :: 0 <= i < |events| ==> r[i] == EventSnapshot(events[i])
  {
    seq(|events|, i requires 0 <= i < |events| => EventSnapshot(events[i]))
  }

  function Appends(id: SessionId, snapshots: seq<Snapshot>): (r: seq<Op>)
    ensures |r| == |snapshots|
    ensures forall i :: 0 <= i < |snapshots| ==> r[i] == Op.Append(id, snapshots[i])
  {
    seq(|snapshots|, i requires 0 <= i < |snapshots| => Op.Append(id, snapshots[i]))
  }

  /** The calls an upload makes: one create, then one append per recorded snapshot. */
  function Trace(id: SessionId, snapshots: seq<Snapshot>): seq<Op> {
    [Op.Create(id)] + Appends(id, snapshots)
  }

  lemma TraceSnoc(id: SessionId, snapshots: seq<Snapshot>, s: Snapshot)
    ensures Trace(id, snapshots + [s]) == Trace(id, snapshots) + [Op.Append(id, s)]
  {
  }

  /** What the writers of session `id` did in a history shared by everyone: reads and other sessions dropped. */
  function WritesTo(h: seq<Op>, id: SessionId): seq<Op> {
    if h == [] then []
    else
      var op := h[|h| - 1];
      WritesTo(h[..|h| - 1], id) + if op.id == id && !op.Get? then [op] else []
  }

  lemma WritesSnoc(h: seq<Op>, op: Op, id: SessionId)
    ensures WritesTo(h + [op], id) == WritesTo(h, id) + if op.id == id && !op.Get? then [op] else []
  {
    assert (h + [op])[..|h|] == h;
  }

  lemma RecordGrows(h: seq<Op>, id: SessionId, before: seq<Op>, snapshots: seq<Snapshot>, s: Snapshot)
    requires WritesTo(h, id) == before + Trace(id, snapshots)
    ensures WritesTo(h + [Op.Append(id, s)], id) == before + Trace(id, snapshots + [s])
  {
    WritesSnoc(h, Op.Append(id, s), id);
    TraceSnoc(id, snapshots, s);
    assert (before + Trace(id, snapshots)) + [Op.Append(id, s)] == before + (Trace(id, snapshots) + [Op.Append(id, s)]);
  }

  function FinalOfStream(events: seq<ProgressEvent>, contentLength: Option<int>, multipart: bool): Snapshot {
    Snapshot(LastLoaded(events), contentLength, None, Some(StrategyOf(multipart)))
  }

  function FinalOfFile(size: int, multipart: bool): Snapshot {
    Snapshot(size, Some(size), None, Some(StrategyOf(multipart)))
  }

  /** A streamed upload in flight: the closure over `sessionId` and `lastLoaded`. */
  class StreamUpload {
    const store: UploadSessionStore
    const sessionId: SessionId
    const contentLength: Option<int>
    var lastLoaded: int
    ghost var events: seq<ProgressEvent>
    ghost const before: seq<Op>

    /** What this upload has written to its session, in the history shared by everyone. */
    ghost predicate Recorded(snapshots: seq<Snapshot>)
      reads store
    {
      WritesTo(store.history, sessionId) == before + Trace(sessionId, snapshots)
    }

    ghost predicate InFlight()
      reads this, store
    {
      lastLoaded == LastLoaded(events) && Recorded(EventSnapshots(events))
    }

    constructor (store: UploadSessionStore, sessionId: SessionId, contentLength: Option<int>)
      requires store.Valid()
      modifies store
      ensures store.Valid() && this.store == store
      ensures InFlight() && events == []
      ensures this.sessionId == sessionId && this.contentLength == contentLength
      ensures store.View() == Step(old(store.View()), Op.Create(sessionId), store.capacity)
      ensures store.history == old(store.history) + [Op.Create(sessionId)]
    {
      this.store, this.sessionId, this.contentLength := store, sessionId, contentLength;
      lastLoaded := 0;
      events, before := [], WritesTo(store.history, sessionId);
      new;
      WritesSnoc(store.history, Op.Create(sessionId), sessionId);
      store.Create(sessionId);
      assert Trace(sessionId, []) == [Op.Create(sessionId)];
    }

    method OnProgress(event: ProgressEvent)
      requires store.Valid() && InFlight()
      modifies this, store
      ensures store.Valid() && InFlight() && events == old(events) + [event]
      ensures store.View()
           == Step(old(store.View()), Op.Append(sessionId, EventSnapshot(event)), store.capacity)
      ensures store.history
           == old(store.history) + [Op.Append(sessionId, Snapshot(event.loaded, event.total, event.part, None))]
    {
      lastLoaded := event.loaded;
      RecordGrows(store.history, sessionId, before, EventSnapshots(events), EventSnapshot(event));
      store.Append(sessionId, EventSnapshot(event));
      events := events + [event];
      assert EventSnapshots(events) == EventSnapshots(old(events)) + [EventSnapshot(event)];
    }

    method Finish(multipart: bool)
      requires store.Valid() && InFlight()
      modifies this, store
      ensures store.Valid()
      ensures var final := FinalOfStream(events, contentLength, multipart);
              && store.View() == Step(old(store.View()), Op.Append(sessionId, final), store.capacity)
              && store.history == old(store.history) + [Op.Append(sessionId, final)]
              && Recorded(EventSnapshots(events) + [final])
              && final == Snapshot(if events == [] then 0 else events[|events| - 1].loaded, contentLength, None,
                                   Some(if multipart then Multipart else Single))
      ensures events == old(events)
    {
      var final := Snapshot(lastLoaded, contentLength, None, Some(StrategyOf(multipart)));
      RecordGrows(store.history, sessionId, before, EventSnapshots(events), final);
      store.Append(sessionId, final);
    }
  }

  /** The upload of a file held in memory: its size is known, so nothing is tracked between callbacks. */
  class FileUpload {
    const store: UploadSessionStore
    const sessionId: SessionId
    const size: int
    ghost var events: seq<ProgressEvent>
    ghost const before: seq<Op>

    /** What this upload has written to its session, in the history shared by everyone. */
    ghost predicate Recorded(snapshots: seq<Snapshot>)
      reads store
    {
      WritesTo(store.history, sessionId) == before + Trace(sessionId, snapshots)
    }

    ghost predicate InFlight()
      reads this, store
    {
      Recorded(EventSnapshots(events))
    }

    constructor (store: UploadSessionStore, sessionId: SessionId, size: int)
      requires store.Valid()
      modifies store
      ensures store.Valid() && this.store == store && this.sessionId == sessionId && this.size == size
      ensures InFlight() && events == []
      ensures store.View() == Step(old(store.View()), Op.Create(sessionId), store.capacity)
      ensures store.history == old(store.history) + [Op.Create(sessionId)]
    {
      this.store, this.sessionId, this.size := store, sessionId, size;
      events, before := [], WritesTo(store.history, sessionId);
      new;
      WritesSnoc(store.history, Op.Create(sessionId), sessionId);
      store.Create(sessionId);
      assert Trace(sessionId, []) == [Op.Create(sessionId)];
    }

    method OnProgress(event: ProgressEvent)
      requires store.Valid() && InFlight()
      modifies this, store
      ensures store.Valid() && InFlight() && events == old(events) + [event]
      ensures store.View()
           == Step(old(store.View()), Op.Append(sessionId, EventSnapshot(event)), store.capacity)
      ensures store.history
           == old(store.history) + [Op.Append(sessionId, Snapshot(event.loaded, event.total, event.part, None))]
    {
      RecordGrows(store.history, sessionId, before, EventSnapshots(events), EventSnapshot(event));
      store.Append(sessionId, EventSnapshot(event));
      events := events + [event];
      assert EventSnapshots(events) == EventSnapshots(old(events)) + [EventSnapshot(event)];
    }

    method Finish(multipart: bool)
      requires store.Valid() && InFlight()
      modifies this, store
      ensures store.Valid()
      ensures var final := FinalOfFile(size, multipart);
              && store.View() == Step(old(store.View()), Op.Append(sessionId, final), store.capacity)
              && store.history == old(store.history) + [Op.Append(sessionId, final)]
              && Recorded(EventSnapshots(events) + [final])
              && final == Snapshot(size, Some(size), None, Some(if multipart then Multipart else Single))
      ensures events == old(events)
    {
      var final := Snapshot(size, Some(size), None, Some(StrategyOf(multipart)));
      RecordGrows(store.history, sessionId, before, EventSnapshots(events), final);
      store.Append(sessionId, final);
    }
  }

  // ---------------------------------------------------------------------
  // Interleavings
  // ---------------------------------------------------------------------

  lemma {:induction false} ContentFollowsWrites(h: seq<Op>, id: SessionId)
    ensures AppendedSinceCreate(h, id) == AppendedSinceCreate(WritesTo(h, id), id)
  {
    if h != [] {
      var g, op := h[..|h| - 1], h[|h| - 1];
      ContentFollowsWrites(g, id);
      var w := WritesTo(g, id);
      assert (w + [op])[..|w|] == w;
      assert w + [] == w;
    }
  }

  /** What was written before the create does not show. */
  lemma {:induction false} ContentOfTrace(id: SessionId, before: seq<Op>, snapshots: seq<Snapshot>)
    ensures AppendedSinceCreate(before + Trace(id, snapshots), id) == snapshots
  {
    if snapshots == [] {
      assert Trace(id, []) == [Op.Create(id)];
    } else {
      var n := |snapshots| - 1;
      ContentOfTrace(id, before, snapshots[..n]);
      TraceSnoc(id, snapshots[..n], snapshots[n]);
      var t := before + Trace(id, snapshots[..n]);
      assert snapshots[..n] + [snapshots[n]] == snapshots;
      assert before + Trace(id, snapshots) == t + [Op.Append(id, snapshots[n])];
      assert (t + [Op.Append(id, snapshots[n])])[..|t|] == t;
    }
  }

  /**
   * In every interleaving in which one upload is the writer of session `id`, a
   * session that is still live holds exactly the snapshots that upload recorded
   * so far, in order: its progress events and, once finished, one final snapshot.
   */
  lemma InterleavingKeepsSessionsApart(h: seq<Op>, id: SessionId, before: seq<Op>, snapshots: seq<Snapshot>, capacity: nat)
    requires 1 <= capacity && Alive(h, id, capacity)
    requires WritesTo(h, id) == before + Trace(id, snapshots)
    ensures id in Run(h, capacity).entries
    ensures Run(h, capacity).entries[id] == snapshots
  {
    AliveExactlyByRecency(h, id, capacity);
    LiveSessionIsComplete(h, id, capacity);
    ContentFollowsWrites(h, id);
    ContentOfTrace(id, before, snapshots);
  }

  /** A callback of an upload, or a client polling a session. */
  datatype Call = Progress(upload: nat, event: ProgressEvent) | Poll(id: SessionId)

  function EventFor(c: Call, k: nat): seq<ProgressEvent> {
    if c.Progress? && c.upload == k then [c.event] else []
  }

  function EventsOf(calls: seq<Call>, k: nat): seq<ProgressEvent> {
    if calls == [] then [] else EventsOf(calls[..|calls| - 1], k) + EventFor(calls[|calls| - 1], k)
  }

  lemma EventsSnoc(calls: seq<Call>, i: nat, k: nat)
    requires i < |calls|
    ensures EventsOf(calls[..i + 1], k) == EventsOf(calls[..i], k) + EventFor(calls[i], k)
  {
    assert calls[..i + 1][..i] == calls[..i];
  }

  /** What the store shows of an upload in flight: nothing once evicted, else exactly its events. */
  lemma LiveUploadShowsItsEvents(u: StreamUpload)
    requires u.store.Valid() && u.InFlight() && u.sessionId in u.store.entries
    ensures u.store.entries[u.sessionId] == EventSnapshots(u.events)
  {
    AliveExactlyByRecency(u.store.history, u.sessionId, u.store.capacity);
    InterleavingKeepsSessionsApart(u.store.history, u.sessionId, u.before, EventSnapshots(u.events), u.store.capacity);
  }

  ghost predicate Share(store: UploadSessionStore, uploads: seq<StreamUpload>) {
    && (forall k :: 0 <= k < |uploads| ==> uploads[k].store == store)
    && (forall j, k :: 0 <= j < k < |uploads| ==> uploads[j].sessionId != uploads[k].sessionId)
  }

  lemma AllShowTheirEvents(store: UploadSessionStore, uploads: seq<StreamUpload>)
    requires store.Valid() && Share(store, uploads)
    requires forall k :: 0 <= k < |uploads| ==> uploads[k].InFlight()
    ensures forall k :: 0 <= k < |uploads| && uploads[k].sessionId in store.entries ==>
              store.entries[uploads[k].sessionId] == EventSnapshots(uploads[k].events)
  {
    forall k | 0 <= k < |uploads| && uploads[k].sessionId in store.entries
      ensures store.entries[uploads[k].sessionId] == EventSnapshots(uploads[k].events)
    {
      LiveUploadShowsItsEvents(uploads[k]);
    }
  }

  /** One callback or poll: it adds its event to its own upload and leaves every other upload alone. */
  method AnswerCall(store: UploadSessionStore, uploads: seq<StreamUpload>, c: Call)
    requires store.Valid() && Share(store, uploads)
    requires forall k :: 0 <= k < |uploads| ==> uploads[k].InFlight()
    requires c.Progress? ==> c.upload < |uploads|
    modifies store, uploads
    ensures store.Valid()
    ensures forall k :: 0 <= k < |uploads| ==> uploads[k].InFlight()
    ensures forall k :: 0 <= k < |uploads| ==> uploads[k].events == old(uploads[k].events) + EventFor(c, k)
  {
    ghost var h := store.history;
    match c {
      case Progress(n, event) =>
        uploads[n].OnProgress(event);
        forall k | 0 <= k < |uploads| && k != n
          ensures uploads[k].InFlight() && uploads[k].events == old(uploads[k].events)
        {
          assert uploads[k].sessionId != uploads[n].sessionId;
          WritesSnoc(h, Op.Append(uploads[n].sessionId, EventSnapshot(event)), uploads[k].sessionId);
        }
      case Poll(id) =>
        var _ := store.Get(id);
        forall k | 0 <= k < |uploads|
          ensures uploads[k].InFlight()
        {
          WritesSnoc(h, Op.Get(id), uploads[k].sessionId);
        }
    }
  }

  /**
   * Any interleaving of the callbacks of any number of uploads and of polls: every
   * upload has recorded its own events in order, and the store shows exactly those.
   */
  method Interleave(store: UploadSessionStore, uploads: seq<StreamUpload>, calls: seq<Call>)
    requires store.Valid() && Share(store, uploads)
    requires forall k :: 0 <= k < |uploads| ==> uploads[k].InFlight()
    requires forall i :: 0 <= i < |calls| && calls[i].Progress? ==> calls[i].upload < |uploads|
    modifies store, uploads
    ensures store.Valid()
    ensures forall k :: 0 <= k < |uploads| ==> uploads[k].events == old(uploads[k].events) + EventsOf(calls, k)
    ensures forall k :: 0 <= k < |uploads| && uploads[k].sessionId in store.entries ==>
              store.entries[uploads[k].sessionId] == EventSnapshots(uploads[k].events)
  {
    for i := 0 to |calls|
      invariant store.Valid()
      invariant forall k :: 0 <= k < |uploads| ==> uploads[k].InFlight()
      invariant forall k :: 0 <= k < |uploads| ==> uploads[k].events == old(uploads[k].events) + EventsOf(calls[..i], k)
    {
      ghost var was := seq(|uploads|, k requires 0 <= k < |uploads| reads uploads => uploads[k].events);
      AnswerCall(store, uploads, calls[i]);
      forall k | 0 <= k < |uploads|
        ensures uploads[k].events == old(uploads[k].events) + EventsOf(calls[..i + 1], k)
      {
        assert uploads[k].events == was[k] + EventFor(calls[i], k);
        EventsSnoc(calls, i, k);
      }
    }
    assert calls[..|calls|] == calls;
    AllShowTheirEvents(store, uploads);
  }

  ghost predicate NonDecreasing(snapshots: seq<Snapshot>) {
    forall i, j :: 0 <= i < j < |snapshots| ==> snapshots[i].loaded <= snapshots[j].loaded
  }

  lemma NonDecreasingWithFinal(e: seq<Snapshot>, final: Snapshot)
    ensures NonDecreasing(e + [final])
       <==> NonDecreasing(e) && (e != [] ==> e[|e| - 1].loaded <= final.loaded)
  {
    var all := e + [final];
    assert forall i :: 0 <= i < |e| ==> all[i] == e[i];
    assert all[|e|] == final;
  }

  /**
   * The progress list of a finished, still live stream never goes backwards
   * exactly when its events did not.
   */
  lemma StreamProgressNeverGoesBack(h: seq<Op>, id: SessionId, before: seq<Op>, events: seq<ProgressEvent>,
                                    contentLength: Option<int>, multipart: bool, capacity: nat)
    requires 1 <= capacity && Alive(h, id, capacity)
    requires WritesTo(h, id) == before + Trace(id, EventSnapshots(events) + [FinalOfStream(events, contentLength, multipart)])
    ensures id in Run(h, capacity).entries
    ensures NonDecreasing(Run(h, capacity).entries[id]) <==> NonDecreasing(EventSnapshots(events))
  {
    var all := EventSnapshots(events) + [FinalOfStream(events, contentLength, multipart)];
    assert id in Run(h, capacity).entries && Run(h, capacity).entries[id] == all by {
      InterleavingKeepsSessionsApart(h, id, before, all, capacity);
    }
    NonDecreasingWithFinal(EventSnapshots(events), FinalOfStream(events, contentLength, multipart));
  }

  /** For a file, the final snapshot reports the file size, so it must not be below the last event either. */
  lemma FileProgressNeverGoesBack(h: seq<Op>, id: SessionId, before: seq<Op>, events: seq<ProgressEvent>,
                                  size: int, multipart: bool, capacity: nat)
    requires 1 <= capacity && Alive(h, id, capacity)
    requires WritesTo(h, id) == before + Trace(id, EventSnapshots(events) + [FinalOfFile(size, multipart)])
    ensures id in Run(h, capacity).entries
    ensures NonDecreasing(Run(h, capacity).entries[id])
       <==> NonDecreasing(EventSnapshots(events)) && (events != [] ==> LastLoaded(events) <= size)
  {
    var e := EventSnapshots(events);
    var all := e + [FinalOfFile(size, multipart)];
    assert id in Run(h, capacity).entries && Run(h, capacity).entries[id] == all by {
      InterleavingKeepsSessionsApart(h, id, before, all, capacity);
    }
    assert events != [] ==> e[|e| - 1].loaded == LastLoaded(events);
    NonDecreasingWithFinal(e, FinalOfFile(size, multipart));
  }
}
