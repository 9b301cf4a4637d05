/**
 * The bounded upload-session store: an LRU cache on top of a JavaScript `Map`,
 * whose iteration order is insertion order (section 24.1.3.9 of ECMA-262). Setting
 * a key that is present keeps its position; deleting and reinserting moves it to
 * the end; eviction drops the first key.
 */
module UploadSessions {
  import opened Wrappers
  import opened Sequences

  /** The UUID of an upload; the store only ever compares ids. */
  datatype SessionId = SessionId(text: string)

  datatype Strategy = Single | Multipart

  datatype Snapshot = Snapshot(loaded: int, total: Option<int>, part: Option<int>, strategy: Option<Strategy>)

  /** The capacity the application uses; everything below is proved for any capacity of at least one. */
  const MAX_SESSIONS: nat := 100

  // ---------------------------------------------------------------------
  // The store as a value: keys in insertion order, and the entry of each key
  // ---------------------------------------------------------------------

  datatype State = State(order: seq<SessionId>, entries: map<SessionId, seq<Snapshot>>)

  const EMPTY: State := State([], map[])

  ghost predicate WellFormed(s: State) {
    && Distinct(s.order)
    && (forall id :: id in s.order <==> id in s.entries)
  }

  function IndexOf(order: seq<SessionId>, id: SessionId): (i: nat)
    requires id in order
    ensures i < |order| && order[i] == id
  {
    if order[0] == id then 0 else 1 + IndexOf(order[1..], id)
  }

  function Without(order: seq<SessionId>, id: SessionId): seq<SessionId> {
    if id in order then var i := IndexOf(order, id); order[..i] + order[i + 1..] else order
  }

  function MapSet(s: State, id: SessionId, snapshots: seq<Snapshot>): State {
    State(if id in s.entries then s.order else s.order + [id], s.entries[id := snapshots])
  }

  function MapDelete(s: State, id: SessionId): State {
    State(Without(s.order, id), s.entries - {id})
  }

  function Evict(s: State, capacity: nat): State
    decreases |s.order|
  {
    if |s.order| > capacity
    then Evict(State(s.order[1..], s.entries - {s.order[0]}), capacity)
    else s
  }

  datatype Op =
    | Create(id: SessionId)
    | Append(id: SessionId, snapshot: Snapshot)
    | Get(id: SessionId)

  function Step(s: State, op: Op, capacity: nat): State {
    match op
    case Create(id) => Evict(MapSet(s, id, []), capacity)
    case Append(id, snapshot) =>
      if id in s.entries then MapSet(MapDelete(s, id), id, s.entries[id] + [snapshot]) else s
    case Get(id) =>
      if id in s.entries then MapSet(MapDelete(s, id), id, s.entries[id]) else s
  }

  function Run(h: seq<Op>, capacity: nat): State {
    if h == [] then EMPTY else Step(Run(h[..|h| - 1], capacity), h[|h| - 1], capacity)
  }

  lemma RunSnoc(h: seq<Op>, op: Op, capacity: nat)
    ensures Run(h + [op], capacity) == Step(Run(h, capacity), op, capacity)
  {
    assert (h + [op])[..|h|] == h;
  }

  lemma WithoutContents(order: seq<SessionId>, id: SessionId)
    requires Distinct(order)
    ensures Distinct(Without(order, id)) && id !in Without(order, id)
    ensures forall x :: x in Without(order, id) <==> x in order && x != id
  {
    if id in order {
      var i := IndexOf(order, id);
      var w := Without(order, id);
      forall x | x in order && x != id
        ensures x in w
      {
        var j :| 0 <= j < |order| && order[j] == x;
        assert w[if j < i then j else j - 1] == x;
      }
    }
  }

  /** Deleting and reinserting a present key moves it to the end and keeps the other keys. */
  lemma Reinserted(s: State, id: SessionId, snapshots: seq<Snapshot>)
    requires WellFormed(s) && id in s.entries
    ensures var s' := MapSet(MapDelete(s, id), id, snapshots);
            && WellFormed(s') && |s'.order| == |s.order|
            && s'.order == Without(s.order, id) + [id] && s'.entries == s.entries[id := snapshots]
  {
    var w := Without(s.order, id);
    WithoutContents(s.order, id);
    PushedContents(w, id);
    assert (s.entries - {id})[id := snapshots] == s.entries[id := snapshots];
  }

  lemma PushedContents(q: seq<SessionId>, id: SessionId)
    requires Distinct(q) && id !in q
    ensures Distinct(q + [id])
    ensures forall x :: x in q + [id] <==> x in q || x == id
  {
  }

  // ---------------------------------------------------------------------
  // The store as the object the service holds
  // ---------------------------------------------------------------------

  class UploadSessionStore {
    const capacity: nat
    var order: seq<SessionId>
    var entries: map<SessionId, seq<Snapshot>>
    /** Every call the store has answered. */
    ghost var history: seq<Op>

    function View(): State
      reads this
    {
      State(order, entries)
    }

    ghost predicate Valid()
      reads this
    {
      1 <= capacity && |order| <= capacity && WellFormed(View()) && View() == Run(history, capacity)
    }

    constructor (capacity: nat)
      requires 1 <= capacity
      ensures Valid() && this.capacity == capacity && View() == EMPTY && history == []
    {
      this.capacity := capacity;
      order := [];
      entries := map[];
      history := [];
    }

    /** Writes a call down before it is answered. */
    ghost method Record(op: Op)
      requires Valid()
      modifies this`history
      ensures history == old(history) + [op]
      ensures Run(history, capacity) == Step(View(), op, capacity)
    {
      RunSnoc(history, op, capacity);
      history := history + [op];
    }

    method Create(id: SessionId)
      requires Valid()
      modifies this
      ensures Valid()
      ensures View() == Step(old(View()), Op.Create(id), capacity)
      ensures history == old(history) + [Op.Create(id)]
    {
      Record(Op.Create(id));
      if id !in entries {
        order := order + [id];
      }
      entries := entries[id := []];
      EvictIfNeeded();
    }

    method EvictIfNeeded()
      requires 1 <= capacity && WellFormed(View())
      modifies this`order, this`entries
      ensures WellFormed(View()) && |order| <= capacity
      ensures View() == Evict(old(View()), capacity)
    {
      while |order| > capacity
        invariant WellFormed(View())
        invariant Evict(View(), capacity) == Evict(old(View()), capacity)
      {
        entries := entries - {order[0]};
        order := order[1..];
      }
    }

    method Append(id: SessionId, snapshot: Snapshot)
      requires Valid()
      modifies this
      ensures Valid()
      ensures View() == Step(old(View()), Op.Append(id, snapshot), capacity)
      ensures history == old(history) + [Op.Append(id, snapshot)]
      ensures entries.Keys == old(entries).Keys
    {
      Record(Op.Append(id, snapshot));
      if id !in entries {
        return;
      }
      var entry := entries[id] + [snapshot];
      Reinserted(View(), id, entry);
      order, entries := Without(order, id), entries - {id};
      order, entries := order + [id], entries[id := entry];
    }

    method Get(id: SessionId) returns (r: Option<seq<Snapshot>>)
      requires Valid()
      modifies this
      ensures Valid()
      ensures View() == Step(old(View()), Op.Get(id), capacity)
      ensures history == old(history) + [Op.Get(id)]
      ensures r == if id in old(entries) then Some(old(entries)[id]) else None
      ensures entries == old(entries)
    {
      Record(Op.Get(id));
      if id !in entries {
        return None;
      }
      var entry := entries[id];
      Reinserted(View(), id, entry);
      order, entries := Without(order, id), entries - {id};
      order, entries := order + [id], entries[id := entry];
      r := Some(entry);
    }

    method Size() returns (n: nat)
      requires Valid()
      ensures n == |entries.Keys| && n <= capacity
    {
      n := |order|;
      DistinctCount(order);
      assert Members(order) == entries.Keys;
    }
  }

  // ---------------------------------------------------------------------
  // The history characterisation: what a session's fate is, read off the
  // calls alone
  // ---------------------------------------------------------------------

  /** Call `i` refreshes its session's recency: it creates a new id, or hits a live one. */
  ghost predicate Touches(h: seq<Op>, i: nat, capacity: nat)
    requires i < |h|
    decreases i, 3
  {
    if h[i].Create? then !Alive(h[..i], h[i].id, capacity) else Alive(h[..i], h[i].id, capacity)
  }

  /** The latest call before `n` that touched `id`, or -1. */
  ghost function LastTouch(h: seq<Op>, n: nat, id: SessionId, capacity: nat): (t: int)
    requires n <= |h|
    ensures -1 <= t < n
    ensures t >= 0 ==> h[t].id == id && Touches(h, t, capacity)
    ensures forall i :: t < i < n && h[i].id == id ==> !Touches(h, i, capacity)
    decreases n, 0
  {
    if n == 0 then -1
    else if h[n - 1].id == id && Touches(h, n - 1, capacity) then n - 1
    else LastTouch(h, n - 1, id, capacity)
  }

  /** The distinct ids touched after call `t`. */
  ghost function TouchedAfter(h: seq<Op>, t: int, capacity: nat): set<SessionId>
    requires -1 <= t
    decreases |h|, 1
  {
    set i | t < i < |h| && Touches(h, i, capacity) :: h[i].id
  }

  /**
   * A session is alive exactly when it was touched and fewer than `capacity`
   * distinct other sessions were touched since its own last touch.
   */
  ghost predicate Alive(h: seq<Op>, id: SessionId, capacity: nat)
    decreases |h|, 2
  {
    var t := LastTouch(h, |h|, id, capacity);
    t >= 0 && |TouchedAfter(h, t, capacity)| < capacity
  }

  /** The distinct other sessions touched since the last touch of `id`. */
  ghost function Since(h: seq<Op>, id: SessionId, capacity: nat): set<SessionId> {
    TouchedAfter(h, LastTouch(h, |h|, id, capacity), capacity)
  }

  lemma {:induction false} LastTouchPrefix(h: seq<Op>, op: Op, n: nat, id: SessionId, capacity: nat)
    requires n <= |h|
    ensures LastTouch(h + [op], n, id, capacity) == LastTouch(h, n, id, capacity)
  {
    if n > 0 {
      assert (h + [op])[..n - 1] == h[..n - 1];
      LastTouchPrefix(h, op, n - 1, id, capacity);
    }
  }

  /** How one more call changes the ids touched since the last touch of `id`. */
  lemma SinceSnoc(h: seq<Op>, op: Op, id: SessionId, capacity: nat)
    ensures (h + [op])[..|h|] == h
    ensures var touched := Touches(h + [op], |h|, capacity);
            && LastTouch(h + [op], |h| + 1, id, capacity)
               == (if touched && op.id == id then |h| else LastTouch(h, |h|, id, capacity))
            && Since(h + [op], id, capacity)
               == (if touched && op.id == id then {}
                   else if touched then Since(h, id, capacity) + {op.id}
                   else Since(h, id, capacity))
  {
    var k := h + [op];
    assert k[..|h|] == h;
    LastTouchPrefix(h, op, |h|, id, capacity);
    forall i | 0 <= i < |h|
      ensures Touches(k, i, capacity) == Touches(h, i, capacity)
    {
      assert k[..i] == h[..i];
    }
    var t := LastTouch(h, |h|, id, capacity);
    assert TouchedAfter(k, t, capacity)
        == TouchedAfter(h, t, capacity) + if Touches(k, |h|, capacity) then {op.id} else {};
  }

  /**
   * The stack relation between an insertion order and a record of touches, kept
   * apart from how that record is computed: the ids behind position `p` are exactly
   * those touched since the id at `p`, and an id that was touched but is gone has
   * been followed by at least `capacity` others.
   */
  ghost predicate Stack(order: seq<SessionId>, seen: SessionId -> bool,
                        since: SessionId -> set<SessionId>, capacity: nat)
  {
    Distinct(order) && |order| <= capacity && Behind(order, seen, since) && Gone(order, seen, since, capacity)
  }

  ghost predicate Behind(order: seq<SessionId>, seen: SessionId -> bool, since: SessionId -> set<SessionId>) {
    forall p :: 0 <= p < |order| ==> seen(order[p]) && since(order[p]) == Members(order[p + 1..])
  }

  ghost predicate Gone(order: seq<SessionId>, seen: SessionId -> bool, since: SessionId -> set<SessionId>, capacity: nat) {
    forall x :: x !in order && seen(x) ==> |since(x)| >= capacity
  }

  /** The record of touches after one more touch, of `id`. */
  ghost predicate Touched(id: SessionId, seen: SessionId -> bool, since: SessionId -> set<SessionId>,
                          seen': SessionId -> bool, since': SessionId -> set<SessionId>)
  {
    && (forall x :: seen'(x) == (seen(x) || x == id))
    && (forall x :: since'(x) == if x == id then {} else since(x) + {id})
  }

  lemma GoneStaysGone(id: SessionId, seen: SessionId -> bool, since: SessionId -> set<SessionId>,
                      seen': SessionId -> bool, since': SessionId -> set<SessionId>, x: SessionId, capacity: nat)
    requires Touched(id, seen, since, seen', since')
    requires x != id && |since(x)| >= capacity
    ensures |since'(x)| >= capacity
  {
    SubsetCount(since(x), since'(x));
  }

  lemma SuffixConcat<T>(a: seq<T>, b: seq<T>, i: nat)
    requires i <= |a|
    ensures (a + b)[i..] == a[i..] + b
  {
  }

  lemma MembersConcat(a: seq<SessionId>, b: seq<SessionId>)
    ensures Members(a + b) == Members(a) + Members(b)
  {
    forall x | x in Members(a) + Members(b)
      ensures x in a + b
    {
    }
  }

  lemma MembersSnoc(q: seq<SessionId>, id: SessionId)
    ensures Members(q + [id]) == Members(q) + {id}
  {
    MembersConcat(q, [id]);
  }

  lemma BehindWithout(order: seq<SessionId>, i: nat, p: nat)
    requires i < |order| && p < |order| - 1
    ensures (order[..i] + order[i + 1..])[p + 1..]
         == if p < i then order[p + 1..i] + order[i + 1..] else order[p + 2..]
  {
  }

  lemma SplitBehind(order: seq<SessionId>, i: nat, from: nat)
    requires from <= i < |order|
    ensures Members(order[from..]) == Members(order[from..i] + order[i + 1..]) + {order[i]}
  {
    var a, b := order[from..i], order[i + 1..];
    assert order[from..] == (a + [order[i]]) + b;
    MembersConcat(a + [order[i]], b);
    MembersSnoc(a, order[i]);
    MembersConcat(a, b);
  }

  lemma AtWithout(order: seq<SessionId>, i: nat, p: nat)
    requires Distinct(order) && i < |order| && p < |order| - 1
    ensures var o := if p < i then p else p + 1;
            (order[..i] + order[i + 1..])[p] == order[o] != order[i]
  {
  }

  lemma MembersBehind(order: seq<SessionId>, i: nat, p: nat, rest: seq<SessionId>)
    requires i < |order| && p < |order| - 1
    requires rest == if p < i then order[p + 1..i] + order[i + 1..] else order[p + 2..]
    ensures Members(rest + [order[i]]) == Members(order[(if p < i then p else p + 1) + 1..]) + {order[i]}
  {
    MembersSnoc(rest, order[i]);
    if p < i {
      SplitBehind(order, i, p + 1);
    }
  }

  /** Removing a key leaves, apart from that key, the same keys behind every other key. */
  lemma BehindAfterWithout(order: seq<SessionId>, id: SessionId, p: nat) returns (o: nat)
    requires Distinct(order) && id in order && p < |Without(order, id)|
    ensures o < |order| && order[o] == Without(order, id)[p] && order[o] != id
    ensures Members(Without(order, id)[p + 1..] + [id]) == Members(order[o + 1..]) + {id}
  {
    var i, w := IndexOf(order, id), Without(order, id);
    o := if p < i then p else p + 1;
    AtWithout(order, i, p);
    BehindWithout(order, i, p);
    MembersBehind(order, i, p, w[p + 1..]);
  }

  lemma GoneAfterTouch(order: seq<SessionId>, id: SessionId,
                       seen: SessionId -> bool, since: SessionId -> set<SessionId>,
                       seen': SessionId -> bool, since': SessionId -> set<SessionId>, order': seq<SessionId>, capacity: nat)
    requires Gone(order, seen, since, capacity) && Touched(id, seen, since, seen', since')
    requires forall x :: x in order || x == id ==> x in order'
    ensures Gone(order', seen', since', capacity)
  {
    forall x | x !in order' && seen'(x)
      ensures |since'(x)| >= capacity
    {
      GoneStaysGone(id, seen, since, seen', since', x, capacity);
    }
  }

  /** Moving a live id to the end of the order is what touching it does to the stack. */
  lemma RefreshBehind(order: seq<SessionId>, id: SessionId,
                      seen: SessionId -> bool, since: SessionId -> set<SessionId>,
                      seen': SessionId -> bool, since': SessionId -> set<SessionId>)
    requires Distinct(order) && Behind(order, seen, since) && id in order
    requires Touched(id, seen, since, seen', since')
    ensures Behind(Without(order, id) + [id], seen', since')
  {
    forall p | 0 <= p < |Without(order, id)|
      ensures var r := Without(order, id) + [id]; seen'(r[p]) && since'(r[p]) == Members(r[p + 1..])
    {
      RefreshAt(order, id, seen, since, seen', since', p);
    }
  }

  lemma RefreshAt(order: seq<SessionId>, id: SessionId,
                  seen: SessionId -> bool, since: SessionId -> set<SessionId>,
                  seen': SessionId -> bool, since': SessionId -> set<SessionId>, p: nat)
    requires Distinct(order) && Behind(order, seen, since) && id in order && p < |Without(order, id)|
    requires Touched(id, seen, since, seen', since')
    ensures var r := Without(order, id) + [id]; seen'(r[p]) && since'(r[p]) == Members(r[p + 1..])
  {
    var o := BehindAfterWithout(order, id, p);
    SuffixConcat(Without(order, id), [id], p + 1);
    assert since'(order[o]) == since(order[o]) + {id};
  }

  lemma RefreshKeepsStack(order: seq<SessionId>, id: SessionId,
                          seen: SessionId -> bool, since: SessionId -> set<SessionId>,
                          seen': SessionId -> bool, since': SessionId -> set<SessionId>, capacity: nat)
    requires Stack(order, seen, since, capacity) && id in order
    requires Touched(id, seen, since, seen', since')
    ensures Stack(Without(order, id) + [id], seen', since', capacity)
  {
    WithoutContents(order, id);
    RefreshBehind(order, id, seen, since, seen', since');
    GoneAfterTouch(order, id, seen, since, seen', since', Without(order, id) + [id], capacity);
  }

  /** Touching a new id pushes it on the stack. */
  lemma PushBehind(order: seq<SessionId>, id: SessionId,
                   seen: SessionId -> bool, since: SessionId -> set<SessionId>,
                   seen': SessionId -> bool, since': SessionId -> set<SessionId>)
    requires Behind(order, seen, since) && id !in order
    requires Touched(id, seen, since, seen', since')
    ensures Behind(order + [id], seen', since')
  {
    var r := order + [id];
    forall p | 0 <= p < |r|
      ensures seen'(r[p]) && since'(r[p]) == Members(r[p + 1..])
    {
      SuffixConcat(order, [id], if p < |order| then p + 1 else p);
      if p < |order| {
        MembersConcat(order[p + 1..], [id]);
        assert since'(r[p]) == since(order[p]) + {id};
      } else {
        assert r[p + 1..] == [];
      }
    }
  }

  /** Dropping the bottom of a stack that is one too high. */
  lemma DropKeepsStack(order: seq<SessionId>, seen: SessionId -> bool, since: SessionId -> set<SessionId>, capacity: nat)
    requires |order| == capacity + 1
    requires Distinct(order) && Behind(order, seen, since) && Gone(order, seen, since, capacity)
    ensures Stack(order[1..], seen, since, capacity)
  {
    var r := order[1..];
    forall p | 0 <= p < |r|
      ensures seen(r[p]) && since(r[p]) == Members(r[p + 1..])
    {
      assert r[p + 1..] == order[p + 2..];
    }
    DistinctCount(r);
    forall x | x !in r && seen(x)
      ensures |since(x)| >= capacity
    {
      if x in order {
        assert order == [order[0]] + r;
      }
    }
  }

  /** Creating a new id: push, and drop the bottom of a stack that was full. */
  lemma PushKeepsStack(order: seq<SessionId>, id: SessionId,
                       seen: SessionId -> bool, since: SessionId -> set<SessionId>,
                       seen': SessionId -> bool, since': SessionId -> set<SessionId>, capacity: nat)
    requires 1 <= capacity && Stack(order, seen, since, capacity) && id !in order
    requires Touched(id, seen, since, seen', since')
    ensures Stack(if |order| == capacity then order[1..] + [id] else order + [id], seen', since', capacity)
  {
    PushBehind(order, id, seen, since, seen', since');
    GoneAfterTouch(order, id, seen, since, seen', since', order + [id], capacity);
    if |order| == capacity {
      DropKeepsStack(order + [id], seen', since', capacity);
      SuffixConcat(order, [id], 1);
    }
  }

  ghost function SeenIn(h: seq<Op>, capacity: nat): SessionId -> bool {
    id => LastTouch(h, |h|, id, capacity) >= 0
  }

  ghost function SinceIn(h: seq<Op>, capacity: nat): SessionId -> set<SessionId> {
    id => Since(h, id, capacity)
  }

  ghost predicate StackMatches(h: seq<Op>, s: State, capacity: nat) {
    WellFormed(s) && Stack(s.order, SeenIn(h, capacity), SinceIn(h, capacity), capacity)
  }

  lemma MatchesMeansAlive(h: seq<Op>, s: State, id: SessionId, capacity: nat)
    requires StackMatches(h, s, capacity)
    ensures id in s.entries <==> Alive(h, id, capacity)
  {
    assert SeenIn(h, capacity)(id) == (LastTouch(h, |h|, id, capacity) >= 0);
    assert SinceIn(h, capacity)(id) == Since(h, id, capacity);
    if id in s.order {
      var p := IndexOf(s.order, id);
      DistinctCount(s.order[p + 1..]);
      assert Since(h, id, capacity) == Members(s.order[p + 1..]);
    }
  }

  /** One more call touches its own id or nothing. */
  lemma RecordSnoc(h: seq<Op>, op: Op, capacity: nat)
    ensures var k := h + [op];
            if Touches(k, |h|, capacity)
            then Touched(op.id, SeenIn(h, capacity), SinceIn(h, capacity), SeenIn(k, capacity), SinceIn(k, capacity))
            else forall x :: SeenIn(k, capacity)(x) == SeenIn(h, capacity)(x)
                             && SinceIn(k, capacity)(x) == SinceIn(h, capacity)(x)
  {
    forall x {
      SinceSnoc(h, op, x, capacity);
    }
  }

  lemma CreateOrder(s: State, id: SessionId, capacity: nat)
    requires 1 <= capacity && |s.order| <= capacity && WellFormed(s) && id !in s.entries
    ensures var s' := Step(s, Create(id), capacity);
            WellFormed(s') && s'.order == (if |s.order| == capacity then s.order[1..] else s.order) + [id]
  {
    var full := MapSet(s, id, []);
    assert full.order[1..] == if |s.order| > 0 then s.order[1..] + [id] else [];
    assert Evict(full, capacity)
        == if |full.order| > capacity then State(full.order[1..], full.entries - {full.order[0]}) else full;
  }

  lemma StepOrder(s: State, op: Op, capacity: nat)
    requires 1 <= capacity && |s.order| <= capacity && WellFormed(s)
    ensures var s' := Step(s, op, capacity);
            && WellFormed(s')
            && s'.order == if op.Create? == (op.id in s.entries) then s.order
                           else if op.Create? then (if |s.order| == capacity then s.order[1..] else s.order) + [op.id]
                           else Without(s.order, op.id) + [op.id]
  {
    if op.Append? && op.id in s.entries {
      Reinserted(s, op.id, s.entries[op.id] + [op.snapshot]);
    } else if op.Get? && op.id in s.entries {
      Reinserted(s, op.id, s.entries[op.id]);
    } else if op.Create? && op.id !in s.entries {
      CreateOrder(s, op.id, capacity);
    }
  }

  lemma {:induction false} RunKeepsStack(h: seq<Op>, capacity: nat)
    requires 1 <= capacity
    ensures StackMatches(h, Run(h, capacity), capacity)
    decreases |h|
  {
    if h != [] {
      var g, op := h[..|h| - 1], h[|h| - 1];
      RunKeepsStack(g, capacity);
      StepKeepsStack(g, op, Run(g, capacity), capacity);
      assert h == g + [op];
    }
  }

  lemma StepKeepsStack(g: seq<Op>, op: Op, s: State, capacity: nat)
    requires 1 <= capacity && StackMatches(g, s, capacity)
    ensures StackMatches(g + [op], Step(s, op, capacity), capacity)
  {
    var seen, since := SeenIn(g, capacity), SinceIn(g, capacity);
    var seen', since' := SeenIn(g + [op], capacity), SinceIn(g + [op], capacity);
    MatchesMeansAlive(g, s, op.id, capacity);
    RecordSnoc(g, op, capacity);
    StepOrder(s, op, capacity);
    assert (g + [op])[..|g|] == g;
    assert Touches(g + [op], |g|, capacity) == (op.Create? != (op.id in s.entries));
    if op.Create? && op.id !in s.entries {
      PushKeepsStack(s.order, op.id, seen, since, seen', since', capacity);
    } else if !op.Create? && op.id in s.entries {
      RefreshKeepsStack(s.order, op.id, seen, since, seen', since', capacity);
    }
  }

  /** The LRU law, over every history of calls and every capacity. */
  lemma AliveExactlyByRecency(h: seq<Op>, id: SessionId, capacity: nat)
    requires 1 <= capacity
    ensures id in Run(h, capacity).entries <==> Alive(h, id, capacity)
  {
    RunKeepsStack(h, capacity);
    MatchesMeansAlive(h, Run(h, capacity), id, capacity);
  }

  /** No history grows the store beyond its capacity, and a create never evicts its own id. */
  lemma BoundedAndSelfPreserving(h: seq<Op>, id: SessionId, capacity: nat)
    requires 1 <= capacity
    ensures |Run(h, capacity).entries.Keys| <= capacity
    ensures id in Run(h + [Create(id)], capacity).entries
  {
    RunKeepsStack(h, capacity);
    var s := Run(h, capacity);
    DistinctCount(s.order);
    assert Members(s.order) == s.entries.Keys;
    StepOrder(s, Create(id), capacity);
    assert (h + [Create(id)])[..|h|] == h;
    if id !in s.entries {
      var order := Step(s, Create(id), capacity).order;
      assert order[|order| - 1] == id;
    }
  }

  /** The store as deployed: at most a hundred sessions, live exactly while fewer than a hundred others were touched since. */
  lemma AsDeployed(h: seq<Op>, id: SessionId)
    ensures |Run(h, MAX_SESSIONS).entries.Keys| <= 100
    ensures id in Run(h, MAX_SESSIONS).entries
       <==> LastTouch(h, |h|, id, MAX_SESSIONS) >= 0 && |Since(h, id, MAX_SESSIONS)| < 100
  {
    BoundedAndSelfPreserving(h, id, MAX_SESSIONS);
    AliveExactlyByRecency(h, id, MAX_SESSIONS);
  }

  /** Re-creating a live id empties it but does not refresh its recency. */
  lemma RecreateDoesNotRefresh(h: seq<Op>, id: SessionId, capacity: nat)
    requires 1 <= capacity && Alive(h, id, capacity)
    ensures var s, s' := Run(h, capacity), Run(h + [Create(id)], capacity);
            s'.order == s.order && s'.entries == s.entries[id := []]
  {
    AliveExactlyByRecency(h, id, capacity);
    RunKeepsStack(h, capacity);
    assert (h + [Create(id)])[..|h|] == h;
  }

  // ---------------------------------------------------------------------
  // What a live session holds
  // ---------------------------------------------------------------------

  /** The snapshots appended to `id` since it was last created, hits and misses alike. */
  function AppendedSinceCreate(h: seq<Op>, id: SessionId): seq<Snapshot> {
    if h == [] then []
    else
      var g, op := h[..|h| - 1], h[|h| - 1];
      if op == Create(id) then []
      else if op.Append? && op.id == id then AppendedSinceCreate(g, id) + [op.snapshot]
      else AppendedSinceCreate(g, id)
  }

  lemma {:induction false} EvictKeepsEntries(s: State, capacity: nat)
    requires WellFormed(s)
    ensures forall id :: id in Evict(s, capacity).entries ==> id in s.entries && Evict(s, capacity).entries[id] == s.entries[id]
    decreases |s.order|
  {
    if |s.order| > capacity {
      EvictKeepsEntries(State(s.order[1..], s.entries - {s.order[0]}), capacity);
    }
  }

  lemma StepEntry(s: State, op: Op, id: SessionId, capacity: nat)
    requires WellFormed(s)
    requires id in Step(s, op, capacity).entries && op != Create(id)
    ensures id in s.entries
    ensures Step(s, op, capacity).entries[id]
         == if op.Append? && op.id == id then s.entries[id] + [op.snapshot] else s.entries[id]
  {
    if op.Create? {
      EvictKeepsEntries(MapSet(s, op.id, []), capacity);
    }
  }

  lemma StepCreate(s: State, id: SessionId, capacity: nat)
    requires WellFormed(s) && id in Step(s, Create(id), capacity).entries
    ensures Step(s, Create(id), capacity).entries[id] == []
  {
    EvictKeepsEntries(MapSet(s, id, []), capacity);
  }

  /** A live session has lost nothing: it holds every snapshot appended since its last creation, in order. */
  lemma {:induction false} LiveSessionIsComplete(h: seq<Op>, id: SessionId, capacity: nat)
    requires 1 <= capacity && id in Run(h, capacity).entries
    ensures Run(h, capacity).entries[id] == AppendedSinceCreate(h, id)
    decreases |h|
  {
    var g, op := h[..|h| - 1], h[|h| - 1];
    RunKeepsStack(g, capacity);
    if op == Create(id) {
      StepCreate(Run(g, capacity), id, capacity);
    } else {
      StepEntry(Run(g, capacity), op, id, capacity);
      LiveSessionIsComplete(g, id, capacity);
    }
  }
}
