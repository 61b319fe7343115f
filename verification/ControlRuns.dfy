/**
 What holds of a sound card's control list and control files over every run of calls
 (alsa/core/control.c).
 */
module ControlRuns {
  import opened EventQueue
  import opened ControlSpec

  ghost predicate OwnersOpen<F>(s: seq<Ctl<F>>, readers: map<F, Reader>) {
    forall i :: 0 <= i < |s| && s[i].owner.Some? ==> s[i].owner.value in readers
  }

  ghost predicate FilesListed<F>(files: seq<F>, readers: map<F, Reader>) {
    && (forall i, j :: 0 <= i < j < |files| ==> files[i] != files[j])
    && (forall f :: f in files ==> f in readers)
    && (forall f :: f in readers ==> f in files)
  }

  /** controls_count is the list length, every owner is an open file, and each open file is listed once. */
  ghost predicate Structure<F>(c: Card<F>) {
    c.count == |c.controls| && OwnersOpen(c.controls, c.readers) && FilesListed(c.files, c.readers)
  }

  /** Live controls have distinct numids between 1 and the last one given out. */
  ghost predicate Numbered<F>(c: Card<F>) {
    && c.lastNumid < NUMIDS
    && (forall i :: 0 <= i < |c.controls| ==> 1 <= c.controls[i].id.numid <= c.lastNumid)
    && (forall i, j :: 0 <= i < j < |c.controls| ==> c.controls[i].id.numid != c.controls[j].id.numid)
  }

  /** Does the call give out a numid? */
  predicate TakesNumber<F(==)>(c: Card<F>, call: Call<F>) {
    (call.CallAdd? && Acceptable(call.ctl.access)) || (call.CallRename? && FindId(c.controls, call.src) < |c.controls|)
  }

  lemma DropListed<F>(files: seq<F>, readers: map<F, Reader>, k: nat)
    requires FilesListed(files, readers) && k < |files|
    ensures FilesListed(Drop(files, k), readers - {files[k]})
  {
  }

  lemma ReleaseStructure<F>(c: Card<F>, f: F)
    requires Structure(c) && f in c.files
    ensures Structure(Release(c, f))
  {
    DropListed(c.files, c.readers, Position(c.files, f));
  }

  lemma StepStructure<F>(c: Card<F>, call: Call<F>)
    requires Structure(c) && CanCall(c, call)
    ensures Structure(Step(c, call))
  {
    match call
    case CallRelease(f) => ReleaseStructure(c, f);
    case CallOpen(f) =>
      var c' := Open(c, f);
      assert forall i :: 0 <= i < |c.files| ==> c'.files[i] == c.files[i];
      assert c'.files[|c.files|] == f;
      forall g | g in c'.readers ensures g in c'.files {
      }
    case CallAdd(ctl) =>
    case CallRemove(i) =>
    case _ =>
  }

  lemma DropNumbered<F>(c: Card<F>, i: nat)
    requires Numbered(c) && i < |c.controls|
    ensures Numbered(RemoveAt(c, i))
  {
    var t := Drop(c.controls, i);
    assert forall k :: 0 <= k < |t| ==> t[k] == if k < i then c.controls[k] else c.controls[k + 1];
  }

  /** Calls that keep every id, and calls that give one control the next number. */
  lemma RenumberedStill<F>(c: Card<F>, c': Card<F>, i: nat)
    requires Numbered(c) && |c.controls| <= |c'.controls| <= |c.controls| + 1
    requires forall k :: 0 <= k < |c'.controls| && k != i ==> k < |c.controls| && c'.controls[k].id.numid == c.controls[k].id.numid
    requires c'.lastNumid < NUMIDS
    requires if i < |c'.controls| then c'.lastNumid == c.lastNumid + 1 && c'.controls[i].id.numid == c'.lastNumid
             else c'.lastNumid == c.lastNumid
    ensures Numbered(c')
  {
  }

  lemma StepNumbered<F>(c: Card<F>, call: Call<F>)
    requires Numbered(c) && CanCall(c, call) && (TakesNumber(c, call) ==> c.lastNumid + 1 < NUMIDS)
    ensures Numbered(Step(c, call))
    ensures Step(c, call).lastNumid == c.lastNumid + if TakesNumber(c, call) then 1 else 0
  {
    if TakesNumber(c, call) {
      assert NextNumid(c.lastNumid) == c.lastNumid + 1;
      if call.CallAdd? {
        RenumberedStill(c, Add(c, call.ctl).0, |c.controls|);
      } else {
        RenumberedStill(c, RenameId(c, call.src, call.dst).0, FindId(c.controls, call.src));
      }
    } else if call.CallRemove? {
      DropNumbered(c, call.i);
    } else if call.CallRemoveId? {
      if FindId(c.controls, call.id) < |c.controls| {
        DropNumbered(c, FindId(c.controls, call.id));
      }
    } else {
      RenumberedStill(c, Step(c, call), |c.controls|);
    }
  }

  /** The structure holds whether or not the numids run out. */
  lemma {:induction false} RunStructure<F>(c: Card<F>, run: seq<Call<F>>)
    requires Structure(c) && Legal(c, run)
    ensures Structure(AfterRun(c, run))
    decreases |run|
  {
    if run != [] {
      StepStructure(c, run[0]);
      RunStructure(Step(c, run[0]), run[1..]);
    }
  }

  /** How many numids the calls of the run give out. */
  function Taken<F(==)>(c: Card<F>, run: seq<Call<F>>): nat
    requires Legal(c, run)
    decreases |run|
  {
    if run == [] then 0 else (if TakesNumber(c, run[0]) then 1 else 0) + Taken(Step(c, run[0]), run[1..])
  }

  /** Live controls are soundly numbered, now and after each call of the run. */
  ghost predicate AlwaysNumbered<F>(c: Card<F>, run: seq<Call<F>>)
    requires Legal(c, run)
    decreases |run|
  {
    Numbered(c) && (run == [] || AlwaysNumbered(Step(c, run[0]), run[1..]))
  }

  /** The call that makes the counter wrap numbers a control 0. */
  lemma WrapBreaks<F>(c: Card<F>, call: Call<F>)
    requires CanCall(c, call) && TakesNumber(c, call) && c.lastNumid + 1 == NUMIDS
    ensures !Numbered(Step(c, call))
  {
    var c' := Step(c, call);
    var i := if call.CallAdd? then |c.controls| else FindId(c.controls, call.src);
    assert c'.controls[i].id.numid == 0;
  }

  /**
   Main result: over every run controls_count is the length of the list and every lock is held by an
   open file; and live controls keep distinct numids in 1..last_numid all along exactly if the run gives
   out no more numids than are left.
   */
  lemma {:induction false} RunInv<F>(c: Card<F>, run: seq<Call<F>>)
    requires Structure(c) && Numbered(c) && Legal(c, run)
    ensures Structure(AfterRun(c, run))
    ensures AlwaysNumbered(c, run) <==> c.lastNumid + Taken(c, run) < NUMIDS
    ensures AlwaysNumbered(c, run) ==> Numbered(AfterRun(c, run)) && AfterRun(c, run).lastNumid == c.lastNumid + Taken(c, run)
    decreases |run|
  {
    if run != [] {
      StepStructure(c, run[0]);
      if TakesNumber(c, run[0]) && c.lastNumid + 1 == NUMIDS {
        WrapBreaks(c, run[0]);
        RunStructure(Step(c, run[0]), run[1..]);
      } else {
        StepNumbered(c, run[0]);
        RunInv(Step(c, run[0]), run[1..]);
      }
    }
  }

  // ---------------------------------------------------------------- locks

  /** Control n is locked by f. */
  ghost predicate LockedBy<F>(c: Card<F>, f: F, n: nat) {
    exists i :: 0 <= i < |c.controls| && c.controls[i].id.numid == n && c.controls[i].owner == Some(f)
  }

  /** Calls that leave f's lock on control n alone: f neither unlocks nor closes, n is neither removed nor renamed. */
  predicate RespectsLock<F(==)>(c: Card<F>, f: F, n: nat, call: Call<F>) {
    match call
    case CallRelease(g) => g != f
    case CallUnlock(g, id) => g != f || !Hits(c, id, n)
    case CallRemove(i) => i < |c.controls| && c.controls[i].id.numid != n
    case CallRemoveId(id) => !Hits(c, id, n)
    case CallRename(src, dst) => !Hits(c, src, n)
    case _ => true
  }

  /** The lookup of id ends at control n. */
  predicate Hits<F>(c: Card<F>, id: ElemId, n: nat) {
    var i := FindId(c.controls, id);
    i < |c.controls| && c.controls[i].id.numid == n
  }

  lemma LockKept<F>(c: Card<F>, f: F, n: nat, call: Call<F>)
    requires Numbered(c) && CanCall(c, call) && LockedBy(c, f, n) && RespectsLock(c, f, n, call)
    ensures LockedBy(Step(c, call), f, n)
  {
    var i :| 0 <= i < |c.controls| && c.controls[i].id.numid == n && c.controls[i].owner == Some(f);
    match call
    case CallRemove(k) => LockSurvivesDrop(c, f, n, i, k);
    case CallRemoveId(id) =>
      if FindId(c.controls, id) < |c.controls| {
        LockSurvivesDrop(c, f, n, i, FindId(c.controls, id));
      }
    case _ =>
      LockInPlace(c, f, n, i, call);
  }

  /** Calls that remove nothing leave the locked control where it is. */
  lemma LockInPlace<F>(c: Card<F>, f: F, n: nat, i: nat, call: Call<F>)
    requires Numbered(c) && CanCall(c, call) && RespectsLock(c, f, n, call) && !call.CallRemove? && !call.CallRemoveId?
    requires i < |c.controls| && c.controls[i].id.numid == n && c.controls[i].owner == Some(f)
    ensures var t := Step(c, call).controls; i < |t| && t[i].id.numid == n && t[i].owner == Some(f)
  {
  }

  lemma LockSurvivesDrop<F>(c: Card<F>, f: F, n: nat, i: nat, k: nat)
    requires i < |c.controls| && k < |c.controls| && i != k
    requires c.controls[i].id.numid == n && c.controls[i].owner == Some(f)
    ensures LockedBy(RemoveAt(c, k), f, n)
  {
    assert RemoveAt(c, k).controls[if i < k then i else i - 1] == c.controls[i];
  }

  predicate AllRespect<F(==)>(c: Card<F>, f: F, n: nat, run: seq<Call<F>>)
    requires Legal(c, run)
    decreases |run|
  {
    run == [] || (RespectsLock(c, f, n, run[0]) && AllRespect(Step(c, run[0]), f, n, run[1..]))
  }

  /**
   Main result, mutual exclusion: as long as f does not give its lock on control n up and n is not
   removed or renamed, f stays the owner, whatever the other files do; and no other file's write
   reaches n's put callback.
   */
  lemma {:induction false} LockExcludes<F>(c: Card<F>, f: F, n: nat, run: seq<Call<F>>, g: F, id: ElemId, indirect: bool)
    requires Structure(c) && Numbered(c) && Legal(c, run) && c.lastNumid + Taken(c, run) < NUMIDS
    requires LockedBy(c, f, n) && AllRespect(c, f, n, run)
    ensures var c' := AfterRun(c, run);
            LockedBy(c', f, n) && (g != f && Hits(c', id, n) ==> WriteCheck(c', g, id, indirect) < 0)
    decreases |run|
  {
    if run == [] {
      var i :| 0 <= i < |c.controls| && c.controls[i].id.numid == n && c.controls[i].owner == Some(f);
      if Hits(c, id, n) {
        assert FindId(c.controls, id) == i;
      }
    } else {
      LockKept(c, f, n, run[0]);
      StepStructure(c, run[0]);
      StepNumbered(c, run[0]);
      LockExcludes(Step(c, run[0]), f, n, run[1..], g, id, indirect);
    }
  }

  /** A successful lock makes the caller the owner; a second lock by anyone fails until then. */
  lemma LockTakes<F>(c: Card<F>, f: F, g: F, id: ElemId)
    requires Numbered(c)
    ensures var (c', code) := Lock(c, f, id);
            && (code == 0 <==> exists n :: Hits(c, id, n)
                                 && forall h: Ctl<F> :: h in c.controls && h.id.numid == n ==> h.owner.None?)
            && (code == 0 ==> forall n :: Hits(c, id, n) ==> LockedBy(c', f, n))
            && (code == 0 ==> Lock(c', g, id).1 == EBUSY)
  {
    var (c', code) := Lock(c, f, id);
    var i := FindId(c.controls, id);
    if code == 0 {
      var n := c.controls[i].id.numid;
      assert c'.controls[i].owner == Some(f) && c'.controls[i].id.numid == n;
      SameLookup(c.controls, c'.controls, id);
      assert Hits(c, id, n) && LockedBy(c', f, n);
    }
  }

  lemma SameLookup<F>(s: seq<Ctl<F>>, t: seq<Ctl<F>>, id: ElemId)
    requires |s| == |t| && forall i :: 0 <= i < |s| ==> s[i].id == t[i].id
    ensures FindId(s, id) == FindId(t, id)
  {
  }

  // ---------------------------------------------------------------- event queues along runs

  function Takes(n: nat): seq<FileCall> {
    if n == 0 then [] else Takes(n - 1) + [Take]
  }

  /** What a call means to the open file f. */
  function Effect<F(==)>(c: Card<F>, call: Call<F>, f: F): seq<FileCall>
    requires CanCall(c, call)
  {
    match call
    case CallNotify(mask, id) => [Notify(mask, id)]
    case CallAdd(ctl) =>
      if Acceptable(ctl.access) then [Notify(MASK_ADD, ctl.id.(numid := NextNumid(c.lastNumid)))] else []
    case CallRemove(i) => [Notify(MASK_REMOVE, c.controls[i].id)]
    case CallRemoveId(id) =>
      var i := FindId(c.controls, id);
      if i < |c.controls| then [Notify(MASK_REMOVE, c.controls[i].id)] else []
    case CallWrite(g, id, indirect, put) =>
      if WriteCheck(c, g, id, indirect) == 0 && put > 0 then [Notify(MASK_VALUE, c.controls[FindId(c.controls, id)].id)] else []
    case CallSubscribe(g, value) => if g == f then [Subscribe(value)] else []
    case CallRead(g, room) => if g == f then Takes(Min(room, |c.readers[f].events|)) else []
    case _ => []
  }

  /** The history of file f after the run, given its history h before; opening a file starts a new one. */
  function HistoryOf<F(==)>(c: Card<F>, h: seq<FileCall>, run: seq<Call<F>>, f: F): seq<FileCall>
    requires Legal(c, run)
    decreases |run|
  {
    if run == [] then h
    else HistoryOf(Step(c, run[0]), if run[0] == CallOpen(f) then [] else h + Effect(c, run[0], f), run[1..], f)
  }

  lemma {:induction false} TakesTake(h: seq<FileCall>, n: nat)
    requires n <= |After(h).events|
    ensures After(h + Takes(n)) == TakeMany(After(h), n)
    decreases n
  {
    if n == 0 {
      assert h + Takes(0) == h;
      assert After(h).events[0..] == After(h).events;
    } else {
      TakesTake(h, n - 1);
      After1(h + Takes(n - 1), Take);
      assert h + Takes(n) == h + Takes(n - 1) + [Take];
      var e := After(h).events;
      assert e[n - 1..][1..] == e[n..];
    }
  }

  lemma EffectIs<F>(c: Card<F>, h: seq<FileCall>, call: Call<F>, f: F)
    requires CanCall(c, call) && f in c.readers && c.readers[f] == After(h)
    ensures f in Step(c, call).readers ==> Step(c, call).readers[f] == After(h + Effect(c, call, f))
  {
    var e := Effect(c, call, f);
    if call.CallRead? && call.f == f {
      TakesTake(h, Min(call.room, |c.readers[f].events|));
    } else if e == [] {
      assert h + e == h;
    } else {
      assert e == [e[0]];
      After1(h, e[0]);
    }
  }

  /**
   Main result: whatever the run, the queue of every open file is the one its history of notifications,
   reads and subscriptions gives, so that QueueReportsHistory applies to it.
   */
  lemma {:induction false} RunHistories<F>(c: Card<F>, h: seq<FileCall>, run: seq<Call<F>>, f: F)
    requires Legal(c, run) && (f in c.readers ==> c.readers[f] == After(h))
    ensures var c', h' := AfterRun(c, run), HistoryOf(c, h, run, f);
            f in c'.readers ==>
              c'.readers[f] == After(h') && Faithful(h', c'.readers[f]) && (c'.readers[f].subscribed <==> Listening(h'))
    decreases |run|
  {
    if run == [] {
      QueueReportsHistory(h);
    } else {
      var c1, h1 := Step(c, run[0]), if run[0] == CallOpen(f) then [] else h + Effect(c, run[0], f);
      if f in c.readers {
        EffectIs(c, h, run[0], f);
      }
      assert f in c1.readers ==> c1.readers[f] == After(h1) by {
        if run[0] == CallOpen(f) {
          assert c1.readers[f] == NewReader == After([]);
        } else if f !in c.readers {
          StaysClosed(c, run[0], f);
        }
      }
      RunHistories(c1, h1, run[1..], f);
    }
  }

  lemma StaysClosed<F>(c: Card<F>, call: Call<F>, f: F)
    requires CanCall(c, call) && f !in c.readers && call != CallOpen(f)
    ensures f !in Step(c, call).readers
  {
  }

  // ---------------------------------------------------------------- listing

  /** The ids that requests for pages of `space` entries return, page after page, from `offset` on. */
  function Pages<F>(c: Card<F>, offset: nat, space: nat): seq<ElemId>
    requires 0 < space
    decreases |c.controls| - offset
  {
    if offset >= |c.controls| then [] else ElemList(c, offset, space) + Pages(c, offset + space, space)
  }

  /**
   Main result: paging through the list rebuilds it, in order, exactly if the space of a page is below
   2^31; from there on the loop takes it for negative, and every page of a list that is not empty is.
   */
  lemma PagesRebuild<F>(c: Card<F>, space: nat)
    requires 0 < space < NUMIDS && |c.controls| < 0x8000_0000
    ensures Pages(c, 0, space) == Ids(c.controls) <==> space < 0x8000_0000 || c.controls == []
  {
    if space < 0x8000_0000 {
      PagesFrom(c, 0, space);
    } else if c.controls != [] {
      assert ElemList(c, 0, space) == [] && Pages(c, space, space) == [];
    }
  }

  lemma {:induction false} PagesFrom<F>(c: Card<F>, offset: nat, space: nat)
    requires 0 < space < 0x8000_0000 && |c.controls| < 0x8000_0000 && offset <= |c.controls|
    ensures Pages(c, offset, space) == Ids(c.controls)[offset..]
    decreases |c.controls| - offset
  {
    if offset < |c.controls| {
      var next := offset + Countdown(space, |c.controls| - offset);
      ElemListIs(c, offset, space);
      if offset + space <= |c.controls| {
        PagesFrom(c, offset + space, space);
      }
      SlicesJoin(Ids(c.controls), offset, next);
    }
  }

  lemma ElemListIs<F>(c: Card<F>, offset: nat, space: nat)
    requires space < 0x8000_0000 && |c.controls| < 0x8000_0000 && offset <= |c.controls|
    ensures ElemList(c, offset, space) == Ids(c.controls)[offset..offset + Countdown(space, |c.controls| - offset)]
  {
  }

  lemma SlicesJoin<T>(s: seq<T>, a: nat, b: nat)
    requires a <= b <= |s|
    ensures s[a..b] + s[b..] == s[a..]
  {
  }
}
