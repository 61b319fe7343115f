/**
 alsa/core/control.c as it runs: cards, controls and control files as objects whose fields are updated
 in place. Each method is proved to perform the step that ControlSpec describes, and keeps Valid().
 */
module Control {
  import opened Arithmetic
  import opened EventQueue
  import opened ControlSpec
  import opened ControlRuns

  /** snd_ctl_file_t */
  class CtlFile {
    var subscribed: bool
    var events: seq<Event>

    constructor ()
      ensures !subscribed && events == []
    {
      subscribed, events := false, [];
    }

    function View(): Reader
      reads this
    {
      Reader(subscribed, events)
    }

    /** The part of snd_ctl_notify() for one file: merge into a waiting event, or append one. */
    method Post(mask: Mask, id: ElemId)
      modifies this
      ensures View() == Notified(old(View()), mask, id)
    {
      if !subscribed {
        return;
      }
      var k := 0;
      while k < |events|
        invariant 0 <= k <= |events| && events == old(events) && subscribed
        invariant k <= Waiting(events, id.numid)
      {
        if events[k].id.numid == id.numid {
          events := events[k := events[k].(mask := events[k].mask + mask)];
          return;
        }
        k := k + 1;
      }
      events := events + [Event(id, mask)];
    }

    /** snd_ctl_empty_read_queue() */
    method EmptyReadQueue()
      modifies `events
      ensures events == []
    {
      while events != []
        decreases |events|
      {
        events := events[1..];
      }
    }

    /** snd_ctl_subscribe_events(): the value handed back to a caller that only asks. */
    method SubscribeEvents(subscribe: int) returns (answer: int)
      modifies this
      ensures View() == Subscribed(old(View()), subscribe)
      ensures answer == if subscribe < 0 then (if old(subscribed) then 1 else 0) else subscribe
    {
      answer := subscribe;
      if subscribe < 0 {
        answer := if subscribed then 1 else 0;
        return;
      }
      if subscribe != 0 {
        subscribed := true;
      } else if subscribed {
        EmptyReadQueue();
        subscribed := false;
      }
    }

    /**
     snd_ctl_read() without blocking: as many events as are waiting and fit into count bytes. The result
     is the number of bytes read, or an error if there are none.
     */
    method Read(count: nat) returns (result: int, delivered: seq<Event>)
      modifies `events
      ensures View() == TakeMany(old(View()), count / SIZEOF_EVENT)
      ensures delivered + events == old(events)
      ensures result == if !subscribed then EBADFD else if count < SIZEOF_EVENT then EINVAL
                        else if old(events) == [] then EAGAIN else SIZEOF_EVENT * |delivered|
    {
      delivered := [];
      if !subscribed {
        return EBADFD, [];
      }
      if count < SIZEOF_EVENT {
        return EINVAL, [];
      }
      var left, err := count, 0;
      result := 0;
      while left >= SIZEOF_EVENT
        invariant |delivered| <= |old(events)| && events == old(events)[|delivered|..]
        invariant delivered == old(events)[..|delivered|]
        invariant 0 <= left == count - SIZEOF_EVENT * |delivered| && result == SIZEOF_EVENT * |delivered| && err == 0
      {
        if events == [] {
          err := EAGAIN;
          break;
        }
        delivered := delivered + [events[0]];
        events := events[1..];
        left := left - SIZEOF_EVENT;
        result := result + SIZEOF_EVENT;
      }
      result := if result > 0 then result else err;
    }
  }

  /** snd_kcontrol_t */
  class KControl {
    var id: ElemId
    var owner: CtlFile?
    const access: Access

    constructor (id: ElemId, access: Access)
      ensures this.id == id && this.access == access && owner == null
    {
      this.id, this.access, owner := id, access, null;
    }

    /** The value of this control in the model. */
    function View(): Ctl<CtlFile>
      reads this
    {
      Ctl(id, if owner == null then None else Some(owner), access)
    }
  }

  const SIZEOF_EVENT := 72
  const EBADFD := -77
  const EAGAIN := -11

  lemma SliceSnoc<T>(s: seq<T>, a: nat, b: nat)
    requires a <= b < |s|
    ensures s[a..b] + [s[b]] == s[a..b + 1]
  {
  }

  /** snd_card_t, as far as controls are concerned */
  class SoundCard {
    var controls: seq<KControl>
    var controlsCount: int
    var lastNumid: nat
    var ctlFiles: seq<CtlFile>
    ghost var st: Card<CtlFile>
    ghost var issued: nat    // numids given out so far

    ghost predicate Shown(i: nat)
      reads this, controls
    {
      i < |controls| && i < |st.controls| && controls[i].View() == st.controls[i]
    }

    ghost predicate ControlsShown()
      reads this, controls
    {
      && |controls| == |st.controls| && (forall i {:trigger Shown(i)} :: 0 <= i < |controls| ==> Shown(i))
      && (forall i, j :: 0 <= i < j < |controls| ==> controls[i] != controls[j])
    }

    ghost predicate ReaderShown(f: CtlFile)
      reads this, f
    {
      f in st.readers && f.View() == st.readers[f]
    }

    ghost predicate FilesShown()
      reads this, ctlFiles
    {
      ctlFiles == st.files && forall f {:trigger ReaderShown(f)} :: f in ctlFiles ==> ReaderShown(f)
    }

    ghost predicate Sound()
      reads this
    {
      && Structure(st) && controlsCount == st.count && lastNumid == st.lastNumid
      && (issued < NUMIDS ==> Numbered(st) && st.lastNumid == issued)
    }

    ghost predicate Valid()
      reads this, controls, ctlFiles
    {
      ControlsShown() && FilesShown() && Sound()
    }

    constructor ()
      ensures Valid() && st == NewCard() && issued == 0
    {
      controls, controlsCount, lastNumid, ctlFiles := [], 0, 0, [];
      st, issued := NewCard(), 0;
    }

    /** The model's step for a call whose effect on the fields has been carried out. */
    ghost method Advance(call: Call<CtlFile>)
      requires Structure(st) && (issued < NUMIDS ==> Numbered(st) && st.lastNumid == issued)
      requires CanCall(st, call)
      modifies `st, `issued
      ensures st == Step(old(st), call) && Structure(st)
      ensures issued == old(issued) + if TakesNumber(old(st), call) then 1 else 0
      ensures issued < NUMIDS ==> Numbered(st) && st.lastNumid == issued
    {
      StepStructure(st, call);
      if issued < NUMIDS && (TakesNumber(st, call) ==> issued + 1 < NUMIDS) {
        StepNumbered(st, call);
      }
      issued := issued + if TakesNumber(st, call) then 1 else 0;
      st := Step(st, call);
    }

    // ---------------------------------------------------------------- files

    /** snd_ctl_open() */
    method Open() returns (ctl: CtlFile)
      requires Valid()
      modifies this
      ensures Valid() && fresh(ctl) && old(st).readers.Keys !! {ctl} && st == Step(old(st), CallOpen(ctl))
    {
      ctl := new CtlFile();
      assert forall f :: f in st.readers ==> f in ctlFiles;
      ctlFiles := ctlFiles + [ctl];
      Advance(CallOpen(ctl));
      forall f | f in ctlFiles ensures ReaderShown(f) {
        assert f != ctl ==> f in old(ctlFiles) && old(ReaderShown(f));
      }
      forall i | 0 <= i < |controls| ensures Shown(i) {
        assert old(Shown(i));
      }
    }

    /** snd_ctl_release() */
    method Release(ctl: CtlFile)
      requires Valid() && ctl in ctlFiles
      modifies this, controls, ctl
      ensures Valid() && st == Step(old(st), CallRelease(ctl)) && ctl.events == []
    {
      ctlFiles := Drop(ctlFiles, Position(ctlFiles, ctl));
      ClearOwner(ctl);
      ctl.EmptyReadQueue();
      ReleaseStructure(st, ctl);
      Advance(CallRelease(ctl));
      forall f | f in ctlFiles ensures ReaderShown(f) {
        assert f in old(ctlFiles) && old(ReaderShown(f));
      }
      forall i | 0 <= i < |controls| ensures Shown(i) {
        assert old(Shown(i));
      }
    }

    /** The loop of snd_ctl_release() that gives up the locks of ctl. */
    method ClearOwner(ctl: CtlFile)
      requires forall i, j :: 0 <= i < j < |controls| ==> controls[i] != controls[j]
      modifies controls
      ensures forall l :: 0 <= l < |controls| ==>
                var v := old(controls[l].View()); controls[l].View() == if v.owner == Some(ctl) then v.(owner := None) else v
    {
      var i := 0;
      while i < |controls|
        invariant 0 <= i <= |controls|
        invariant forall l :: 0 <= l < i ==>
                    var v := old(controls[l].View()); controls[l].View() == if v.owner == Some(ctl) then v.(owner := None) else v
        invariant forall l :: i <= l < |controls| ==> controls[l].View() == old(controls[l].View())
      {
        if controls[i].owner == ctl {
          controls[i].owner := null;
        }
        i := i + 1;
      }
    }

    /** The loop of snd_ctl_notify() over the open files. */
    method NotifyFiles(mask: Mask, id: ElemId)
      requires forall i, j :: 0 <= i < j < |ctlFiles| ==> ctlFiles[i] != ctlFiles[j]
      modifies ctlFiles
      ensures forall f :: f in ctlFiles ==> f.View() == Notified(old(f.View()), mask, id)
    {
      var i := 0;
      while i < |ctlFiles|
        invariant 0 <= i <= |ctlFiles|
        invariant forall l :: 0 <= l < i ==> ctlFiles[l].View() == Notified(old(ctlFiles[l].View()), mask, id)
        invariant forall l :: i <= l < |ctlFiles| ==> ctlFiles[l].View() == old(ctlFiles[l].View())
      {
        ctlFiles[i].Post(mask, id);
        i := i + 1;
      }
    }

    /** snd_ctl_notify() */
    method Notify(mask: Mask, id: ElemId)
      requires Valid()
      modifies this, ctlFiles
      ensures Valid() && st == Step(old(st), CallNotify(mask, id))
    {
      NotifyFiles(mask, id);
      Advance(CallNotify(mask, id));
      ControlsStill();
      forall f | f in ctlFiles ensures ReaderShown(f) {
        assert old(ReaderShown(f));
      }
    }

    /** The controls are as they were. */
    twostate lemma ControlsStill()
      requires old(ControlsShown()) && controls == old(controls) && st.controls == old(st).controls && unchanged(controls)
      ensures ControlsShown()
    {
      forall i | 0 <= i < |controls| ensures Shown(i) {
        assert old(Shown(i));
      }
    }

    /** A subscribe or read request on the open file ctl. */
    method Subscribe(ctl: CtlFile, subscribe: int) returns (answer: int)
      requires Valid() && ctl in ctlFiles
      modifies this, ctl
      ensures Valid() && st == Step(old(st), CallSubscribe(ctl, subscribe))
    {
      assert ReaderShown(ctl);
      answer := ctl.SubscribeEvents(subscribe);
      Advance(CallSubscribe(ctl, subscribe));
      OneReader(ctl);
    }

    method Read(ctl: CtlFile, count: nat) returns (result: int, delivered: seq<Event>)
      requires Valid() && ctl in ctlFiles
      modifies this, ctl
      ensures Valid() && st == Step(old(st), CallRead(ctl, count / SIZEOF_EVENT))
      ensures delivered + st.readers[ctl].events == old(st).readers[ctl].events
    {
      assert ReaderShown(ctl);
      result, delivered := ctl.Read(count);
      Advance(CallRead(ctl, count / SIZEOF_EVENT));
      OneReader(ctl);
    }

    /** Only the reader state of ctl has changed. */
    twostate lemma OneReader(ctl: CtlFile)
      requires old(ControlsShown() && FilesShown()) && ctl in ctlFiles
      requires controls == old(controls) && ctlFiles == old(ctlFiles) && st.controls == old(st).controls && st.files == old(st).files
      requires st.readers == old(st).readers[ctl := ctl.View()]
      requires unchanged(set f | f in ctlFiles && f != ctl) && unchanged(controls)
      ensures ControlsShown() && FilesShown()
    {
      forall f | f in ctlFiles ensures ReaderShown(f) {
        assert old(ReaderShown(f));
      }
      forall i | 0 <= i < |controls| ensures Shown(i) {
        assert old(Shown(i));
      }
    }

    // ---------------------------------------------------------------- controls

    /** snd_ctl_find_id() and snd_ctl_find_numid() */
    method FindControl(id: ElemId) returns (kctl: KControl?, i: nat)
      requires Valid()
      ensures i == FindId(st.controls, id) && (kctl == null <==> i == |controls|)
      ensures kctl != null ==> kctl == controls[i]
    {
      i := 0;
      while i < |controls|
        invariant 0 <= i <= |controls| && i <= FindId(st.controls, id)
      {
        assert Shown(i);
        var c := controls[i].id;
        if id.numid != 0 {
          if c.numid == id.numid {
            return controls[i], i;
          }
        } else if c.iface == id.iface && c.device == id.device && c.subdevice == id.subdevice
               && CName(c.name, 44) == CName(id.name, 44) && c.index == id.index {
          return controls[i], i;
        }
        i := i + 1;
      }
      kctl := null;
    }

    /** snd_ctl_add() */
    method Add(kctl: KControl) returns (err: int)
      requires Valid() && kctl !in controls && (kctl.owner == null || kctl.owner in ctlFiles)
      modifies this, kctl, ctlFiles
      ensures Valid() && st == Step(old(st), CallAdd(old(kctl.View()))) && err == ControlSpec.Add(old(st), old(kctl.View())).1
      ensures err == 0 ==> controls == old(controls) + [kctl]
    {
      var a := kctl.access;
      if !a.hasInfo || (a.read && !a.hasGet) || (a.write && !a.hasPut) {
        Advance(CallAdd(kctl.View()));
        SameCard();
        return EINVAL;
      }
      ghost var view := kctl.View();
      controls := controls + [kctl];
      controlsCount := controlsCount + 1;
      lastNumid := NextNumid(lastNumid);
      kctl.id := kctl.id.(numid := lastNumid);
      NotifyFiles(MASK_ADD, kctl.id);
      Advance(CallAdd(view));
      forall f | f in ctlFiles ensures ReaderShown(f) {
        assert old(ReaderShown(f));
      }
      ControlAppended(kctl);
      err := 0;
    }

    /** kctl has been appended to the controls. */
    twostate lemma ControlAppended(kctl: KControl)
      requires old(ControlsShown()) && kctl !in old(controls) && controls == old(controls) + [kctl]
      requires st.controls == old(st).controls + [kctl.View()] && unchanged(old(controls))
      ensures ControlsShown()
    {
      forall i | 0 <= i < |controls| ensures Shown(i) {
        assert i < |controls| - 1 ==> old(Shown(i)) && controls[i] == old(controls)[i];
      }
    }

    twostate lemma SameCard()
      requires old(ControlsShown() && FilesShown())
      requires controls == old(controls) && ctlFiles == old(ctlFiles) && st == old(st)
      requires unchanged(ctlFiles) && unchanged(controls)
      ensures ControlsShown() && FilesShown()
    {
      forall f | f in ctlFiles ensures ReaderShown(f) {
        assert old(ReaderShown(f));
      }
      forall i | 0 <= i < |controls| ensures Shown(i) {
        assert old(Shown(i));
      }
    }

    /** snd_ctl_remove() of the i-th control */
    method Remove(kctl: KControl, ghost i: nat) returns (err: int)
      requires Valid() && i < |controls| && controls[i] == kctl
      modifies this, ctlFiles
      ensures Valid() && st == Step(old(st), CallRemove(i)) && err == 0
      ensures controls == Drop(old(controls), i)
    {
      assert Shown(i);
      controls := Drop(controls, Position(controls, kctl));
      controlsCount := controlsCount - 1;
      NotifyFiles(MASK_REMOVE, kctl.id);
      Advance(CallRemove(i));
      forall f | f in ctlFiles ensures ReaderShown(f) {
        assert old(ReaderShown(f));
      }
      forall k | 0 <= k < |controls| ensures Shown(k) {
        assert old(Shown(if k < i then k else k + 1));
      }
      err := 0;
    }

    /** snd_ctl_remove_id() */
    method RemoveId(id: ElemId) returns (err: int)
      requires Valid()
      modifies this, ctlFiles
      ensures Valid() && st == Step(old(st), CallRemoveId(id)) && err == ControlSpec.RemoveId(old(st), id).1
    {
      var kctl, i := FindControl(id);
      if kctl == null {
        Advance(CallRemoveId(id));
        SameCard();
        return ENOENT;
      }
      err := Remove(kctl, i);
    }

    /** snd_ctl_rename_id() */
    method RenameId(src: ElemId, dst: ElemId) returns (err: int)
      requires Valid()
      modifies this, controls
      ensures Valid() && st == Step(old(st), CallRename(src, dst)) && err == ControlSpec.RenameId(old(st), src, dst).1
    {
      var kctl, i := FindControl(src);
      if kctl == null {
        Advance(CallRename(src, dst));
        SameCard();
        return ENOENT;
      }
      assert Shown(i);
      lastNumid := NextNumid(lastNumid);
      kctl.id := dst.(numid := lastNumid);
      Advance(CallRename(src, dst));
      OneControl(i);
      err := 0;
    }

    /** Only the i-th control has changed. */
    twostate lemma OneControl(i: nat)
      requires old(ControlsShown() && FilesShown()) && i < |controls|
      requires controls == old(controls) && ctlFiles == old(ctlFiles) && st.files == old(st).files && st.readers == old(st).readers
      requires st.controls == old(st).controls[i := controls[i].View()]
      requires unchanged(ctlFiles) && unchanged(set k | k in controls && k != controls[i])
      ensures ControlsShown() && FilesShown()
    {
      forall f | f in ctlFiles ensures ReaderShown(f) {
        assert old(ReaderShown(f));
      }
      forall k | 0 <= k < |controls| ensures Shown(k) {
        assert old(Shown(k));
      }
    }

    /** snd_ctl_elem_lock() */
    method ElemLock(file: CtlFile, id: ElemId) returns (result: int)
      requires Valid() && file in ctlFiles
      modifies this, controls
      ensures Valid() && st == Step(old(st), CallLock(file, id)) && result == Lock(old(st), file, id).1
    {
      assert ReaderShown(file);
      var kctl, i := FindControl(id);
      assert kctl != null ==> Shown(i);
      if kctl == null {
        result := ENOENT;
      } else if kctl.owner != null {
        result := EBUSY;
      } else {
        kctl.owner := file;
        Advance(CallLock(file, id));
        OneControl(i);
        return 0;
      }
      Advance(CallLock(file, id));
      SameCard();
    }

    /** snd_ctl_elem_unlock() */
    method ElemUnlock(file: CtlFile, id: ElemId) returns (result: int)
      requires Valid() && file in ctlFiles
      modifies this, controls
      ensures Valid() && st == Step(old(st), CallUnlock(file, id)) && result == Unlock(old(st), file, id).1
    {
      assert ReaderShown(file);
      var kctl, i := FindControl(id);
      assert kctl != null ==> Shown(i);
      if kctl == null {
        result := ENOENT;
      } else if kctl.owner == null {
        result := EINVAL;
      } else if kctl.owner != file {
        result := EPERM;
      } else {
        kctl.owner := null;
        Advance(CallUnlock(file, id));
        OneControl(i);
        return 0;
      }
      Advance(CallUnlock(file, id));
      SameCard();
    }

    /** The tests that snd_ctl_elem_write() makes before it calls put. */
    method MayWrite(file: CtlFile, id: ElemId, indirect: bool) returns (result: int, kctl: KControl?)
      requires Valid() && file in ctlFiles
      ensures result == WriteCheck(st, file, id, indirect)
      ensures result == 0 ==> kctl in controls && kctl.id == st.controls[FindId(st.controls, id)].id
    {
      var i;
      kctl, i := FindControl(id);
      assert kctl != null ==> Shown(i);
      if kctl == null {
        result := ENOENT;
      } else if kctl.access.indirect != indirect {
        result := EACCES;
      } else if !kctl.access.write || !kctl.access.hasPut || (kctl.owner != null && kctl.owner != file) {
        result := EPERM;
      } else {
        result := 0;
      }
    }

    /** snd_ctl_elem_write(); the put callback, when it is called, returns putResult. */
    method ElemWrite(file: CtlFile, id: ElemId, indirect: bool, putResult: int) returns (result: int, putCalled: bool)
      requires Valid() && file in ctlFiles
      modifies this, ctlFiles
      ensures Valid() && st == Step(old(st), CallWrite(file, id, indirect, putResult))
      ensures result == Write(old(st), file, id, indirect, putResult).1
      ensures putCalled <==> WriteCheck(old(st), file, id, indirect) == 0
    {
      assert ReaderShown(file);
      var kctl;
      result, kctl := MayWrite(file, id, indirect);
      putCalled := result == 0;
      if putCalled {
        result := putResult;
        if result > 0 {
          result := 0;
          NotifyFiles(MASK_VALUE, kctl.id);
          Advance(CallWrite(file, id, indirect, putResult));
          ControlsStill();
          forall f | f in ctlFiles ensures ReaderShown(f) {
            assert old(ReaderShown(f));
          }
          return;
        }
      }
      Advance(CallWrite(file, id, indirect, putResult));
      SameCard();
    }

    /** The first loop of snd_ctl_elem_list(): the list position to start from. */
    method SkipTo(offset: int) returns (plist: nat)
      ensures plist == Countdown(offset, |controls|)
    {
      var left := offset;
      plist := 0;
      while left > 0 && plist != |controls|
        invariant plist <= |controls| && left == offset - plist && (plist > 0 ==> left >= 0)
        decreases |controls| - plist
      {
        left, plist := left - 1, plist + 1;
      }
    }

    /** snd_ctl_elem_list() */
    method ElemList(offset: int, space: int) returns (count: int, used: nat, pids: seq<ElemId>)
      requires Valid() && 0 <= offset < NUMIDS && 0 <= space < NUMIDS
      ensures count == |st.controls| && used == |pids| && pids == ControlSpec.ElemList(st, offset, space)
    {
      var room := S32(space);
      count := controlsCount;
      var plist := SkipTo(S32(offset));
      ghost var start, ids := plist, Ids(st.controls);
      used, pids := 0, [];
      while room > 0 && plist != |controls|
        invariant start <= plist <= |ids| && used == |pids| == plist - start
        invariant room == S32(space) - used && (used > 0 ==> room >= 0)
        invariant pids == ids[start..plist]
        decreases |controls| - plist
      {
        assert Shown(plist);
        SliceSnoc(ids, start, plist);
        pids := pids + [controls[plist].id];
        plist, room, used := plist + 1, room - 1, used + 1;
      }
      assert plist == start + Countdown(S32(space), |ids| - start);
    }
  }
}
