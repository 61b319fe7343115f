/**
 What single calls of alsa/core/control.c do to the control they name, stated about the controls on the
 list: who may write, lock and unlock, what adding, removing and renaming leave, and which calls undo
 each other.
 */
module ControlLaws {
  import opened Arithmetic
  import opened EventQueue
  import opened ControlSpec
  import opened ControlRuns

  /** A number finds the control that has it. */
  lemma FoundByNumber<F>(c: Card<F>, i: nat, id: ElemId)
    requires Numbered(c) && i < |c.controls| && id.numid == c.controls[i].id.numid
    ensures FindId(c.controls, id) == i
  {
    assert Wanted(c.controls[i].id, id);
  }

  // ---------------------------------------------------------------- writing

  /** May f write the control k through this interface? */
  predicate Writable<F(==)>(k: Ctl<F>, f: F, indirect: bool) {
    k.access.indirect == indirect && k.access.write && k.access.hasPut && k.owner in {None, Some(f)}
  }

  /**
   A write reaches a control's put callback exactly if the interface agrees, the control is writable and
   has the callback, and nobody or the caller owns it. Then the callback's result decides: a positive one
   counts as success and is the only one that the open files hear of. No write changes a control.
   */
  lemma WriteReaches<F>(c: Card<F>, i: nat, f: F, id: ElemId, indirect: bool, put: int)
    requires Numbered(c) && i < |c.controls| && id.numid == c.controls[i].id.numid
    ensures var k := c.controls[i];
            var (c', code) := Write(c, f, id, indirect, put);
            && (WriteCheck(c, f, id, indirect) == 0 <==> Writable(k, f, indirect))
            && (Writable(k, f, indirect) ==> code == if put > 0 then 0 else put)
            && (!Writable(k, f, indirect) ==> code == if k.access.indirect != indirect then EACCES else EPERM)
            && c'.controls == c.controls && c'.readers.Keys == c.readers.Keys
            && (forall g :: g in c.readers ==>
                  c'.readers[g] == (if Writable(k, f, indirect) && put > 0 then Notified(c.readers[g], MASK_VALUE, k.id) else c.readers[g]))
  {
    FoundByNumber(c, i, id);
  }

  /** A number that no control has is not found by any call. */
  lemma UnknownNumber<F>(c: Card<F>, f: F, id: ElemId, indirect: bool, put: int, dst: ElemId)
    requires id.numid != 0 && forall i :: 0 <= i < |c.controls| ==> c.controls[i].id.numid != id.numid
    ensures Write(c, f, id, indirect, put) == Lock(c, f, id) == Unlock(c, f, id) == RemoveId(c, id) == RenameId(c, id, dst) == (c, ENOENT)
  {
  }

  /** Who has locked a control may write it. */
  lemma OwnerWrites<F>(c: Card<F>, i: nat, f: F, id: ElemId)
    requires Numbered(c) && i < |c.controls| && id.numid == c.controls[i].id.numid && Lock(c, f, id).1 == 0
    requires c.controls[i].access.write && c.controls[i].access.hasPut
    ensures WriteCheck(Lock(c, f, id).0, f, id, c.controls[i].access.indirect) == 0
  {
    FoundByNumber(c, i, id);
    var c' := Lock(c, f, id).0;
    FoundByNumber(c', i, id);
  }

  // ---------------------------------------------------------------- locking

  /** The control at i has another owner; nothing else of the card has changed. */
  ghost predicate OwnerSet<F>(c: Card<F>, c': Card<F>, i: nat, owner: Option<F>)
    requires i < |c.controls|
  {
    && |c'.controls| == |c.controls| && c' == c.(controls := c'.controls)
    && (forall j :: 0 <= j < |c.controls| && j != i ==> c'.controls[j] == c.controls[j])
    && c'.controls[i].owner == owner && c'.controls[i].id == c.controls[i].id && c'.controls[i].access == c.controls[i].access
  }

  /** Locking takes exactly a control without owner, and unlocking frees exactly one that the caller owns. */
  lemma LockUnlockExactly<F>(c: Card<F>, i: nat, f: F, id: ElemId)
    requires Numbered(c) && i < |c.controls| && id.numid == c.controls[i].id.numid
    ensures var (locked, code) := Lock(c, f, id);
            && (code == 0 <==> c.controls[i].owner == None)
            && (code == 0 ==> OwnerSet(c, locked, i, Some(f)))
            && (code != 0 ==> locked == c && code == EBUSY)
    ensures var (freed, code) := Unlock(c, f, id);
            && (code == 0 <==> c.controls[i].owner == Some(f))
            && (code == 0 ==> OwnerSet(c, freed, i, None))
            && (code != 0 ==> freed == c && code == if c.controls[i].owner == None then EINVAL else EPERM)
  {
    FoundByNumber(c, i, id);
  }

  /** Unlocking undoes locking. */
  lemma UnlockUndoesLock<F>(c: Card<F>, i: nat, f: F, id: ElemId)
    requires Numbered(c) && i < |c.controls| && id.numid == c.controls[i].id.numid && Lock(c, f, id).1 == 0
    ensures Unlock(Lock(c, f, id).0, f, id) == (c, 0)
  {
    FoundByNumber(c, i, id);
    var c' := Lock(c, f, id).0;
    FoundByNumber(c', i, id);
    assert Unlock(c', f, id).0.controls == c.controls;
  }

  // ---------------------------------------------------------------- adding, removing, renaming

  /** The callbacks that the access bits of a control call for are there. */
  predicate Served(a: Access) {
    a.hasInfo && (!a.read || a.hasGet) && (!a.write || a.hasPut)
  }

  /** Exactly the controls with their callbacks are added, at the end of the list and with the next number. */
  lemma AddExactly<F>(c: Card<F>, ctl: Ctl<F>)
    requires Numbered(c) && c.lastNumid + 1 < NUMIDS
    ensures var (c', code) := Add(c, ctl);
            if Served(ctl.access) then
              && code == 0 && c'.count == c.count + 1 && c'.lastNumid == c.lastNumid + 1
              && c'.controls == c.controls + [ctl.(id := ctl.id.(numid := c.lastNumid + 1))]
              && (forall g :: g in c.readers ==> g in c'.readers && c'.readers[g] == Notified(c.readers[g], MASK_ADD, ctl.id.(numid := c.lastNumid + 1)))
            else c' == c && code == EINVAL
  {
    assert NextNumid(c.lastNumid) == c.lastNumid + 1;
  }

  ghost predicate AllServed<F>(c: Card<F>) {
    forall i :: 0 <= i < |c.controls| ==> Served(c.controls[i].access)
  }

  /** After every run each control on the list has the callbacks that its access bits call for. */
  lemma {:induction false} RunServed<F>(c: Card<F>, run: seq<Call<F>>)
    requires Legal(c, run) && AllServed(c)
    ensures AllServed(AfterRun(c, run))
    decreases |run|
  {
    if run != [] {
      StepServed(c, run[0]);
      RunServed(Step(c, run[0]), run[1..]);
    }
  }

  lemma StepServed<F>(c: Card<F>, call: Call<F>)
    requires CanCall(c, call) && AllServed(c)
    ensures AllServed(Step(c, call))
  {
  }

  /** Removing takes exactly the control found off the list, and the open files hear of it. */
  lemma RemoveExactly<F>(c: Card<F>, i: nat, id: ElemId)
    requires Numbered(c) && i < |c.controls| && id.numid == c.controls[i].id.numid
    ensures var (c', code) := RemoveId(c, id);
            && code == 0 && c'.controls == c.controls[..i] + c.controls[i + 1..] && c'.count == c.count - 1
            && c'.lastNumid == c.lastNumid
            && (forall k :: k in c'.controls ==> k.id.numid != id.numid)
            && (forall g :: g in c.readers ==> g in c'.readers && c'.readers[g] == Notified(c.readers[g], MASK_REMOVE, c.controls[i].id))
  {
    FoundByNumber(c, i, id);
    var c' := RemoveId(c, id).0;
    forall k | k in c'.controls ensures k.id.numid != id.numid {
      var j :| 0 <= j < |c'.controls| && c'.controls[j] == k;
      assert k == c.controls[if j < i then j else j + 1];
    }
  }

  /** Removing the control just added brings the list back; only its number is spent. */
  lemma RemoveUndoesAdd<F>(c: Card<F>, ctl: Ctl<F>, id: ElemId)
    requires Numbered(c) && c.lastNumid + 1 < NUMIDS && Served(ctl.access) && id.numid == c.lastNumid + 1
    ensures var (c', code) := RemoveId(Add(c, ctl).0, id);
            code == 0 && c'.controls == c.controls && c'.count == c.count && c'.lastNumid == c.lastNumid + 1
  {
    AddExactly(c, ctl);
    RenumberedStill(c, Add(c, ctl).0, |c.controls|);
    var c1 := Add(c, ctl).0;
    RemoveExactly(c1, |c.controls|, id);
    assert c1.controls[..|c.controls|] + c1.controls[|c.controls| + 1..] == c.controls;
  }

  /** A renamed control has the new name and the next number, and keeps its place, owner and access. */
  lemma RenameExactly<F>(c: Card<F>, i: nat, src: ElemId, dst: ElemId)
    requires Numbered(c) && i < |c.controls| && src.numid == c.controls[i].id.numid && c.lastNumid + 1 < NUMIDS
    ensures var (c', code) := RenameId(c, src, dst);
            && code == 0 && |c'.controls| == |c.controls| && c'.lastNumid == c.lastNumid + 1
            && c' == c.(controls := c'.controls, lastNumid := c'.lastNumid)
            && (forall j :: 0 <= j < |c.controls| && j != i ==> c'.controls[j] == c.controls[j])
            && c'.controls[i] == c.controls[i].(id := c'.controls[i].id)
            && c'.controls[i].id == dst.(numid := c.lastNumid + 1)
            && ((forall j :: 0 <= j < i ==> !SameFields(c.controls[j].id, dst)) ==> FindId(c'.controls, dst.(numid := 0)) == i)
  {
    FoundByNumber(c, i, src);
    assert NextNumid(c.lastNumid) == c.lastNumid + 1;
    var c', id := RenameId(c, src, dst).0, dst.(numid := 0);
    forall j | 0 <= j < |c'.controls| ensures Wanted(c'.controls[j].id, id) <==> SameFields(c'.controls[j].id, dst) {
      MatchesExactly(c'.controls[j].id, id);
    }
    MatchesExactly(c'.controls[i].id, id);
    assert Matches(c'.controls[i].id, id);
  }

  /** Closing a file gives up exactly its locks, and leaves the other files and their queues alone. */
  lemma ReleaseExactly<F>(c: Card<F>, f: F)
    requires Structure(c) && f in c.files
    ensures var c' := Release(c, f);
            && |c'.controls| == |c.controls| && c'.count == c.count && c'.lastNumid == c.lastNumid
            && (forall i :: 0 <= i < |c.controls| ==>
                  c'.controls[i] == (if c.controls[i].owner == Some(f) then c.controls[i].(owner := None) else c.controls[i]))
            && f !in c'.files && c'.readers == c.readers - {f}
            && exists k :: 0 <= k < |c.files| && c.files[k] == f && c'.files == c.files[..k] + c.files[k + 1..]
  {
    var k := Position(c.files, f);
    var t := Drop(c.files, k);
    assert forall i :: 0 <= i < |t| ==> t[i] == c.files[if i < k then i else i + 1];
    assert c.files[k] == f && t == c.files[..k] + c.files[k + 1..];
  }

  // ---------------------------------------------------------------- names

  /** The k-th character of a name, which ends with a NUL. */
  function CharOf(s: string, k: nat): char {
    if k < |s| then s[k] else '\0'
  }

  /** The first `room` characters agree up to the first NUL, as strncmp compares them. */
  ghost predicate NamesAgree(a: string, b: string, room: nat) {
    forall k: nat {:trigger CharOf(a, k)} {:trigger CharOf(b, k)} ::
      k < room && (forall j: nat :: j < k ==> CharOf(a, j) != '\0') ==> CharOf(a, k) == CharOf(b, k)
  }

  ghost predicate SameFields(a: ElemId, b: ElemId) {
    a.iface == b.iface && a.device == b.device && a.subdevice == b.subdevice && NamesAgree(a.name, b.name, 44) && a.index == b.index
  }

  /** A control is found by its fields exactly if all five agree. */
  lemma MatchesExactly(a: ElemId, b: ElemId)
    ensures Matches(a, b) <==> SameFields(a, b)
  {
    CNamesAgree(a.name, b.name, 44);
  }

  lemma {:induction false} CNamesAgree(a: string, b: string, room: nat)
    ensures CName(a, room) == CName(b, room) <==> NamesAgree(a, b, room)
    decreases room
  {
    if room > 0 {
      if CharOf(a, 0) != CharOf(b, 0) || CharOf(a, 0) == '\0' {
        assert NamesAgree(a, b, room) ==> CharOf(a, 0) == CharOf(b, 0);
      } else {
        CNamesAgree(a[1..], b[1..], room - 1);
        assert forall k: nat {:trigger CharOf(a[1..], k)} {:trigger CharOf(b[1..], k)} ::
          CharOf(a[1..], k) == CharOf(a, k + 1) && CharOf(b[1..], k) == CharOf(b, k + 1);
        NamesShift(a, b, room);
        assert CName(a, room) == [a[0]] + CName(a[1..], room - 1) && CName(a, room)[1..] == CName(a[1..], room - 1);
        assert CName(b, room) == [b[0]] + CName(b[1..], room - 1) && CName(b, room)[1..] == CName(b[1..], room - 1);
      }
    }
  }

  lemma NamesShift(a: string, b: string, room: nat)
    requires room > 0 && CharOf(a, 0) == CharOf(b, 0) != '\0'
    ensures NamesAgree(a, b, room) <==> NamesAgree(a[1..], b[1..], room - 1)
  {
    var s, t := a[1..], b[1..];
    assert forall k: nat :: CharOf(s, k) == CharOf(a, k + 1) && CharOf(t, k) == CharOf(b, k + 1);
    if NamesAgree(a, b, room) {
      forall k: nat | k < room - 1 && forall j: nat :: j < k ==> CharOf(s, j) != '\0' ensures CharOf(s, k) == CharOf(t, k) {
        forall j: nat | j < k + 1 ensures CharOf(a, j) != '\0' {
          assert j > 0 ==> CharOf(s, j - 1) != '\0';
        }
      }
    }
    if NamesAgree(s, t, room - 1) {
      forall k: nat | k < room && forall j: nat :: j < k ==> CharOf(a, j) != '\0' ensures CharOf(a, k) == CharOf(b, k) {
        if k > 0 {
          forall j: nat | j < k - 1 ensures CharOf(s, j) != '\0' {
            assert CharOf(a, j + 1) != '\0';
          }
          assert CharOf(s, k - 1) == CharOf(t, k - 1);
        }
      }
    }
  }

  // ---------------------------------------------------------------- listing

  /**
   What a page holds: the ids of at most `space` controls from the offset on, in order; none if the space
   is 2^31 or more, and from the beginning if the offset is, both being taken for negative.
   */
  lemma ElemListExactly<F>(c: Card<F>, offset: nat, space: nat)
    requires offset < NUMIDS && space < NUMIDS && |c.controls| < 0x8000_0000
    ensures var page := ElemList(c, offset, space);
            var from := if offset >= 0x8000_0000 then 0 else Min(offset, |c.controls|);
            && |page| == (if space >= 0x8000_0000 then 0 else Min(space, |c.controls| - from))
            && forall k :: 0 <= k < |page| ==> page[k] == c.controls[from + k].id
  {
  }
}
