/**
 The event queue of one control file (alsa/core/control.c): snd_ctl_notify merges a notification into
 the waiting event of the same control, snd_ctl_read hands events out from the front, and unsubscribing
 empties the queue. The queue is proved against the history of calls on the file.
 */
module EventQueue {

  /** A control's identity; numid 0 means "look it up by the other fields". */
  datatype ElemId = ElemId(numid: nat, iface: int, device: int, subdevice: int, name: string, index: int)

  /** An event mask, as the set of its bits; the OR of two masks is their union. */
  type Mask = set<nat>

  datatype Event = Event(id: ElemId, mask: Mask)

  /** What a control file keeps for its reader. */
  datatype Reader = Reader(subscribed: bool, events: seq<Event>)

  const NewReader := Reader(false, [])

  /** Position of the event for control numid in the queue, or |q|. */
  function Waiting(q: seq<Event>, numid: nat): (k: nat)
    ensures k <= |q| && (k < |q| ==> q[k].id.numid == numid)
    ensures forall i :: 0 <= i < k ==> q[i].id.numid != numid
  {
    if q == [] then 0 else if q[0].id.numid == numid then 0 else 1 + Waiting(q[1..], numid)
  }

  /** One notification on a queue: merge, or append. */
  function Enqueue(q: seq<Event>, mask: Mask, id: ElemId): seq<Event> {
    var k := Waiting(q, id.numid);
    if k < |q| then q[k := q[k].(mask := q[k].mask + mask)] else q + [Event(id, mask)]
  }

  function Notified(r: Reader, mask: Mask, id: ElemId): Reader {
    if r.subscribed then r.(events := Enqueue(r.events, mask, id)) else r
  }

  /** snd_ctl_subscribe_events with argument `value`; a negative one only asks. */
  function Subscribed(r: Reader, value: int): Reader {
    if value < 0 then r
    else if value != 0 then r.(subscribed := true)
    else if r.subscribed then Reader(false, [])
    else r
  }

  /** One event taken by snd_ctl_read. */
  function Taken(r: Reader): Reader {
    if r.subscribed && r.events != [] then r.(events := r.events[1..]) else r
  }

  // ---------------------------------------------------------------- histories

  datatype FileCall = Notify(mask: Mask, id: ElemId) | Subscribe(value: int) | Take

  function Handled(r: Reader, c: FileCall): Reader {
    match c
    case Notify(mask, id) => Notified(r, mask, id)
    case Subscribe(value) => Subscribed(r, value)
    case Take => Taken(r)
  }

  /** The reader's state after a history of calls, oldest first. */
  function After(h: seq<FileCall>): Reader
    decreases |h|
  {
    if h == [] then NewReader else Handled(After(h[..|h| - 1]), h[|h| - 1])
  }

  /** The file listens after h: it has subscribed and not unsubscribed since. */
  ghost predicate Listening(h: seq<FileCall>) {
    exists i {:trigger SubscribesAt(h, i)} :: SubscribesAt(h, i) && forall j :: i < j < |h| ==> h[j] != Subscribe(0)
  }

  predicate SubscribesAt(h: seq<FileCall>, i: int) {
    0 <= i < |h| && h[i].Subscribe? && h[i].value > 0
  }

  /** After h, call c is a notification of control n that the file hears. */
  ghost predicate Hears(h: seq<FileCall>, c: FileCall, n: nat) {
    c.Notify? && Listening(h) && c.id.numid == n
  }

  /** Of all controls with unreported notifications, n is the one that has waited longest. */
  ghost predicate Oldest(h: seq<FileCall>, n: nat)
    decreases |h|, 1
  {
    Unreported(h, n) != [] && forall m {:trigger Unreported(h, m)} :: Unreported(h, m) != [] ==> Unreported(h, n)[0] <= Unreported(h, m)[0]
  }

  /** After h, call c reads the event for control n, or ends the subscription. */
  ghost predicate Reported(h: seq<FileCall>, c: FileCall, n: nat)
    decreases |h|, 2
  {
    c == Subscribe(0) || (c.Take? && Oldest(h, n))
  }

  /**
   Positions in the history of the notifications of control n that no read has reported yet: those heard
   since n was last read or the file was unsubscribed. This speaks of the calls alone, not of the queue.
   */
  ghost function Unreported(h: seq<FileCall>, n: nat): seq<nat>
    decreases |h|, 0
  {
    if h == [] then [] else
    var p, c := h[..|h| - 1], h[|h| - 1];
    if Reported(p, c, n) then []
    else if Hears(p, c, n) then Unreported(p, n) + [|p|]
    else Unreported(p, n)
  }

  predicate Notifies(h: seq<FileCall>, i: nat, n: nat) {
    i < |h| && h[i].Notify? && h[i].id.numid == n
  }

  function MaskAt(h: seq<FileCall>, i: nat): Mask {
    if i < |h| && h[i].Notify? then h[i].mask else {}
  }

  /** The OR of the masks of the notifications at the given positions. */
  function OrAll(h: seq<FileCall>, at: seq<nat>): Mask {
    if at == [] then {} else OrAll(h, at[..|at| - 1]) + MaskAt(h, at[|at| - 1])
  }

  /** The event e reports exactly the notifications at positions `at`: the OR of their masks, the id of the first. */
  ghost predicate Reports(h: seq<FileCall>, at: seq<nat>, e: Event) {
    && at != [] && (forall k :: 0 <= k < |at| ==> Notifies(h, at[k], e.id.numid))
    && e.mask == OrAll(h, at) && e.id == h[at[0]].id
  }

  lemma {:induction false} OrAllExtended(h: seq<FileCall>, c: FileCall, at: seq<nat>)
    requires forall k :: 0 <= k < |at| ==> at[k] < |h|
    ensures OrAll(h + [c], at) == OrAll(h, at)
    decreases |at|
  {
    if at != [] {
      OrAllExtended(h, c, at[..|at| - 1]);
      assert MaskAt(h + [c], at[|at| - 1]) == MaskAt(h, at[|at| - 1]);
    }
  }

  lemma OrAllAppended(p: seq<FileCall>, c: FileCall, at: seq<nat>)
    requires forall k :: 0 <= k < |at| ==> at[k] < |p|
    ensures OrAll(p + [c], at + [|p|]) == OrAll(p, at) + MaskAt(p + [c], |p|)
  {
    OrAllExtended(p, c, at);
    assert (at + [|p|])[..|at|] == at;
  }

  lemma {:induction false} UnreportedInRange(h: seq<FileCall>, n: nat)
    ensures forall k :: 0 <= k < |Unreported(h, n)| ==> Notifies(h, Unreported(h, n)[k], n)
    ensures forall k :: 0 <= k < |Unreported(h, n)| - 1 ==> Unreported(h, n)[k] < Unreported(h, n)[k + 1]
    decreases |h|
  {
    if h != [] {
      var p := h[..|h| - 1];
      UnreportedInRange(p, n);
      var u := Unreported(h, n);
      forall k | 0 <= k < |u| ensures Notifies(h, u[k], n) {
        assert k < |Unreported(p, n)| ==> Notifies(p, Unreported(p, n)[k], n);
      }
    }
  }

  /** When the event e entered the queue: the first notification it reports. */
  ghost function Opened(h: seq<FileCall>, e: Event): int {
    var u := Unreported(h, e.id.numid);
    if u == [] then -1 else u[0]
  }

  ghost predicate EntryFaithful(h: seq<FileCall>, r: Reader, i: nat)
    requires i < |r.events|
  {
    Reports(h, Unreported(h, r.events[i].id.numid), r.events[i])
  }

  ghost predicate InOrder(h: seq<FileCall>, r: Reader, i: nat, j: nat)
    requires i < |r.events| && j < |r.events|
  {
    r.events[i].id.numid != r.events[j].id.numid && Opened(h, r.events[i]) < Opened(h, r.events[j])
  }

  ghost predicate Queued(h: seq<FileCall>, r: Reader, n: nat) {
    Unreported(h, n) != [] ==> Waiting(r.events, n) < |r.events|
  }

  /** How the reader's state r relates to the history h. */
  ghost predicate Faithful(h: seq<FileCall>, r: Reader) {
    && (!r.subscribed ==> r.events == [])
    && (forall i {:trigger EntryFaithful(h, r, i)} :: 0 <= i < |r.events| ==> EntryFaithful(h, r, i))
    && (forall n {:trigger Queued(h, r, n)} :: Queued(h, r, n))
    && (forall i, j {:trigger InOrder(h, r, i, j)} :: 0 <= i < j < |r.events| ==> InOrder(h, r, i, j))
  }

  /**
   Main result: after any history of notifications, reads and (un)subscriptions the queue holds one event
   per control with unreported notifications, its mask is the OR of exactly those, and the events stand
   in the order in which they were opened; a file is subscribed exactly while it listens, and has an
   empty queue otherwise.
   */
  lemma {:induction false} QueueReportsHistory(h: seq<FileCall>)
    ensures Faithful(h, After(h)) && (After(h).subscribed <==> Listening(h))
    decreases |h|
  {
    SubscribedIsListening(h);
    if h != [] {
      var p, c := h[..|h| - 1], h[|h| - 1];
      assert h == p + [c];
      QueueReportsHistory(p);
      match c
      case Notify(mask, id) => NotifyFaithful(p, mask, id);
      case Subscribe(value) => SubscribeFaithful(p, value);
      case Take => TakeFaithful(p);
    }
  }

  lemma After1(p: seq<FileCall>, c: FileCall)
    ensures After(p + [c]) == Handled(After(p), c)
  {
  }

  ghost predicate NextUnreported(p: seq<FileCall>, c: FileCall, n: nat) {
    Unreported(p + [c], n) ==
      if Reported(p, c, n) then [] else if Hears(p, c, n) then Unreported(p, n) + [|p|] else Unreported(p, n)
  }

  lemma Unreported1(p: seq<FileCall>, c: FileCall, n: nat)
    ensures NextUnreported(p, c, n)
  {
  }

  lemma Listening1(p: seq<FileCall>, c: FileCall)
    ensures Listening(p + [c]) <==> (c.Subscribe? && c.value > 0) || (Listening(p) && c != Subscribe(0))
  {
    var h := p + [c];
    if c.Subscribe? && c.value > 0 {
      assert SubscribesAt(h, |p|);
    }
    if Listening(p) && c != Subscribe(0) {
      var i :| SubscribesAt(p, i) && forall j :: i < j < |p| ==> p[j] != Subscribe(0);
      assert SubscribesAt(h, i);
    }
    if Listening(h) && !(c.Subscribe? && c.value > 0) {
      var i :| SubscribesAt(h, i) && forall j :: i < j < |h| ==> h[j] != Subscribe(0);
      assert SubscribesAt(p, i) && h[|p|] == c;
      assert forall j :: i < j < |p| ==> p[j] == h[j];
    }
  }

  /** A file is subscribed exactly while it listens. */
  lemma {:induction false} SubscribedIsListening(h: seq<FileCall>)
    ensures After(h).subscribed <==> Listening(h)
    decreases |h|
  {
    if h != [] {
      var p, c := h[..|h| - 1], h[|h| - 1];
      assert h == p + [c];
      SubscribedIsListening(p);
      Listening1(p, c);
    }
  }

  /** The event at the head of the queue is that of the control that has waited longest. */
  lemma HeadIsOldest(p: seq<FileCall>, r: Reader, n: nat)
    requires Faithful(p, r)
    ensures Oldest(p, n) <==> r.events != [] && r.events[0].id.numid == n
  {
    if r.events != [] {
      var n0 := r.events[0].id.numid;
      assert EntryFaithful(p, r, 0);
      forall m: nat | Unreported(p, m) != [] && m != n0 ensures Unreported(p, n0)[0] < Unreported(p, m)[0] {
        assert Queued(p, r, m);
        assert InOrder(p, r, 0, Waiting(r.events, m));
      }
    } else {
      assert Queued(p, r, n);
    }
  }

  /** An event whose control is not concerned by the call c keeps its meaning. */
  lemma EntryKept(p: seq<FileCall>, c: FileCall, e: Event)
    requires Reports(p, Unreported(p, e.id.numid), e) && Unreported(p + [c], e.id.numid) == Unreported(p, e.id.numid)
    ensures Reports(p + [c], Unreported(p + [c], e.id.numid), e) && Opened(p + [c], e) == Opened(p, e)
  {
    var h, u := p + [c], Unreported(p, e.id.numid);
    UnreportedInRange(p, e.id.numid);
    OrAllExtended(p, c, u);
    assert forall k :: 0 <= k < |u| ==> Notifies(p, u[k], e.id.numid) && h[u[k]] == p[u[k]];
  }

  /** Calls that change neither the queue nor any unreported notifications. */
  lemma IdleFaithful(p: seq<FileCall>, c: FileCall, r: Reader, r': Reader)
    requires Faithful(p, r) && r'.events == r.events && (!r'.subscribed ==> r'.events == [])
    requires forall n :: Unreported(p + [c], n) == Unreported(p, n)
    ensures Faithful(p + [c], r')
  {
    var h := p + [c];
    forall i | 0 <= i < |r.events| ensures EntryFaithful(h, r', i) && Opened(h, r.events[i]) == Opened(p, r.events[i]) {
      assert EntryFaithful(p, r, i);
      EntryKept(p, c, r.events[i]);
    }
    forall n: nat ensures Queued(h, r', n) {
      assert Queued(p, r, n);
    }
    forall i, j | 0 <= i < j < |r.events| ensures InOrder(h, r', i, j) {
      assert InOrder(p, r, i, j);
    }
  }

  lemma SubscribeFaithful(p: seq<FileCall>, value: int)
    requires Faithful(p, After(p))
    ensures Faithful(p + [Subscribe(value)], After(p + [Subscribe(value)]))
  {
    var h := p + [Subscribe(value)];
    After1(p, Subscribe(value));
    forall n: nat ensures Unreported(h, n) == if value == 0 then [] else Unreported(p, n) {
      Unreported1(p, Subscribe(value), n);
    }
    if value != 0 {
      IdleFaithful(p, Subscribe(value), After(p), After(p + [Subscribe(value)]));
    } else {
      forall n: nat ensures Queued(p + [Subscribe(value)], After(p + [Subscribe(value)]), n) {
      }
    }
  }

  lemma TakeFaithful(p: seq<FileCall>)
    requires Faithful(p, After(p))
    ensures Faithful(p + [Take], After(p + [Take]))
  {
    var r, h, r' := After(p), p + [Take], After(p + [Take]);
    After1(p, Take);
    forall n: nat ensures Unreported(h, n) == if r.events != [] && r.events[0].id.numid == n then [] else Unreported(p, n) {
      Unreported1(p, Take, n);
      HeadIsOldest(p, r, n);
    }
    if !r.subscribed || r.events == [] {
      IdleFaithful(p, Take, r, r');
    } else {
      forall i | 0 <= i < |r'.events| ensures EntryFaithful(h, r', i) && Opened(h, r'.events[i]) == Opened(p, r.events[i + 1]) {
        assert EntryFaithful(p, r, i + 1) && InOrder(p, r, 0, i + 1);
        EntryKept(p, Take, r.events[i + 1]);
      }
      forall n: nat ensures Queued(h, r', n) {
        assert Queued(p, r, n);
        if Unreported(h, n) != [] {
          TailWaiting(r.events, n);
        }
      }
      forall i, j | 0 <= i < j < |r'.events| ensures InOrder(h, r', i, j) {
        assert InOrder(p, r, i + 1, j + 1);
      }
    }
  }

  lemma TailWaiting(q: seq<Event>, n: nat)
    requires q != [] && q[0].id.numid != n && Waiting(q, n) < |q|
    ensures Waiting(q[1..], n) < |q[1..]|
  {
  }

  lemma NotifyFaithful(p: seq<FileCall>, mask: Mask, id: ElemId)
    requires Faithful(p, After(p))
    ensures Faithful(p + [Notify(mask, id)], After(p + [Notify(mask, id)]))
  {
    var c := Notify(mask, id);
    var r, h, r' := After(p), p + [c], After(p + [c]);
    After1(p, c);
    SubscribedIsListening(p);
    forall n: nat ensures Unreported(h, n) == if r.subscribed && n == id.numid then Unreported(p, n) + [|p|] else Unreported(p, n) {
      Unreported1(p, c, n);
    }
    if !r.subscribed {
      IdleFaithful(p, c, r, r');
    } else {
      var k := Waiting(r.events, id.numid);
      NotifiedEntry(p, mask, id);
      forall i | 0 <= i < |r.events| && i != k ensures EntryFaithful(h, r', i) && Opened(h, r'.events[i]) == Opened(p, r.events[i]) {
        assert EntryFaithful(p, r, i);
        assert k < |r.events| ==> if i < k then InOrder(p, r, i, k) else InOrder(p, r, k, i);
        EntryKept(p, c, r.events[i]);
      }
      forall n: nat ensures Queued(h, r', n) {
        assert Queued(p, r, n);
        assert forall i :: 0 <= i < |r.events| ==> r'.events[i].id.numid == r.events[i].id.numid;
        assert n == id.numid ==> k < |r'.events| && r'.events[k].id.numid == n;
      }
      forall i, j | 0 <= i < j < |r'.events| ensures InOrder(h, r', i, j) {
        assert j < |r.events| ==> InOrder(p, r, i, j);
        if j == |r.events| {
          assert EntryFaithful(p, r, i);
          UnreportedInRange(p, r.events[i].id.numid);
        }
      }
    }
  }

  /** The event of the notified control, merged or new. */
  lemma NotifiedEntry(p: seq<FileCall>, mask: Mask, id: ElemId)
    requires Faithful(p, After(p)) && After(p).subscribed
    ensures var h := p + [Notify(mask, id)];
            var r, r', k := After(p), After(h), Waiting(After(p).events, id.numid);
            && k < |r'.events| && EntryFaithful(h, r', k)
            && Opened(h, r'.events[k]) == if k < |r.events| then Opened(p, r.events[k]) else |p|
  {
    var c := Notify(mask, id);
    var r, h, r', u := After(p), p + [c], After(p + [c]), Unreported(p, id.numid);
    var k := Waiting(r.events, id.numid);
    After1(p, c);
    SubscribedIsListening(p);
    Unreported1(p, c, id.numid);
    assert Queued(p, r, id.numid);
    if k < |r.events| {
      assert EntryFaithful(p, r, k);
      MergedReports(p, mask, id, r.events[k]);
      assert r'.events[k] == r.events[k].(mask := r.events[k].mask + mask);
    } else {
      OpenedReports(p, mask, id);
      assert r'.events[k] == Event(id, mask) && u == [];
    }
  }

  lemma MergedReports(p: seq<FileCall>, mask: Mask, id: ElemId, e: Event)
    requires e.id.numid == id.numid && Reports(p, Unreported(p, id.numid), e)
    ensures Reports(p + [Notify(mask, id)], Unreported(p, id.numid) + [|p|], e.(mask := e.mask + mask))
  {
    var c, u := Notify(mask, id), Unreported(p, id.numid);
    UnreportedInRange(p, id.numid);
    assert forall k :: 0 <= k < |u| ==> Notifies(p, u[k], id.numid);
    OrAllAppended(p, c, u);
    assert (u + [|p|])[0] == u[0] && (p + [c])[u[0]] == p[u[0]];
  }

  lemma OpenedReports(p: seq<FileCall>, mask: Mask, id: ElemId)
    ensures Reports(p + [Notify(mask, id)], [|p|], Event(id, mask))
  {
  }
}
