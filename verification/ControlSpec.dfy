/**
 The control list of a sound card (alsa/core/control.c) on values: the controls with their numids and
 owners, the open control files, and what each call does to them. F stands for control files.
 */
module ControlSpec {
  import opened Arithmetic
  import opened EventQueue

  datatype Option<+T> = None | Some(value: T)

  const NUMIDS := 0x1_0000_0000

  const ENOENT := -2
  const EPERM := -1
  const EACCES := -13
  const EBUSY := -16
  const EINVAL := -22

  const MASK_VALUE: Mask := {0}
  const MASK_ADD: Mask := {2}
  const MASK_REMOVE: Mask := set b: nat | 0 <= b < 32

  /** Access bits of a control, and which callbacks it has. */
  datatype Access = Access(read: bool, write: bool, indirect: bool, hasInfo: bool, hasGet: bool, hasPut: bool)

  datatype Ctl<+F> = Ctl(id: ElemId, owner: Option<F>, access: Access)

  datatype Card<!F> = Card(controls: seq<Ctl<F>>, count: int, lastNumid: nat, files: seq<F>, readers: map<F, Reader>)

  function NewCard<F>(): Card<F> {
    Card([], 0, 0, [], map[])
  }

  // ---------------------------------------------------------------- lookup

  /** The string held by a name field of 44 characters. */
  function CName(s: string, room: nat): string
    decreases room
  {
    if room == 0 || s == "" || s[0] == '\0' then "" else [s[0]] + CName(s[1..], room - 1)
  }

  predicate Matches(c: ElemId, id: ElemId) {
    c.iface == id.iface && c.device == id.device && c.subdevice == id.subdevice
    && CName(c.name, 44) == CName(id.name, 44) && c.index == id.index
  }

  /** What snd_ctl_find_id looks for: the number if there is one, the other fields otherwise. */
  predicate Wanted(c: ElemId, id: ElemId) {
    if id.numid != 0 then c.numid == id.numid else Matches(c, id)
  }

  /** Position of the first wanted control, or the length of the list. */
  function FindId<F>(s: seq<Ctl<F>>, id: ElemId): (i: nat)
    ensures i <= |s| && (i < |s| ==> Wanted(s[i].id, id))
    ensures forall k :: 0 <= k < i ==> !Wanted(s[k].id, id)
  {
    if s == [] then 0 else if Wanted(s[0].id, id) then 0 else 1 + FindId(s[1..], id)
  }

  // ---------------------------------------------------------------- calls

  function Drop<T>(s: seq<T>, i: nat): seq<T>
    requires i < |s|
  {
    s[..i] + s[i + 1..]
  }

  function NotifyAll<F>(c: Card<F>, mask: Mask, id: ElemId): Card<F> {
    c.(readers := map f | f in c.readers :: Notified(c.readers[f], mask, id))
  }

  function NextNumid(n: nat): nat {
    (n + 1) % NUMIDS
  }

  predicate Acceptable(a: Access) {
    a.hasInfo && (a.read ==> a.hasGet) && (a.write ==> a.hasPut)
  }

  function Add<F>(c: Card<F>, ctl: Ctl<F>): (Card<F>, int) {
    if !Acceptable(ctl.access) then (c, EINVAL) else
    var id := ctl.id.(numid := NextNumid(c.lastNumid));
    (NotifyAll(c.(controls := c.controls + [ctl.(id := id)], count := c.count + 1, lastNumid := id.numid), MASK_ADD, id), 0)
  }

  function RemoveAt<F>(c: Card<F>, i: nat): Card<F>
    requires i < |c.controls|
  {
    NotifyAll(c.(controls := Drop(c.controls, i), count := c.count - 1), MASK_REMOVE, c.controls[i].id)
  }

  function RemoveId<F>(c: Card<F>, id: ElemId): (Card<F>, int) {
    var i := FindId(c.controls, id);
    if i == |c.controls| then (c, ENOENT) else (RemoveAt(c, i), 0)
  }

  function RenameId<F>(c: Card<F>, src: ElemId, dst: ElemId): (Card<F>, int) {
    var i := FindId(c.controls, src);
    if i == |c.controls| then (c, ENOENT) else
    var n := NextNumid(c.lastNumid);
    (c.(controls := c.controls[i := c.controls[i].(id := dst.(numid := n))], lastNumid := n), 0)
  }

  function Lock<F(==)>(c: Card<F>, f: F, id: ElemId): (Card<F>, int) {
    var i := FindId(c.controls, id);
    if i == |c.controls| then (c, ENOENT)
    else if c.controls[i].owner.Some? then (c, EBUSY)
    else (c.(controls := c.controls[i := c.controls[i].(owner := Some(f))]), 0)
  }

  function Unlock<F(==)>(c: Card<F>, f: F, id: ElemId): (Card<F>, int) {
    var i := FindId(c.controls, id);
    if i == |c.controls| then (c, ENOENT)
    else if c.controls[i].owner.None? then (c, EINVAL)
    else if c.controls[i].owner != Some(f) then (c, EPERM)
    else (c.(controls := c.controls[i := c.controls[i].(owner := None)]), 0)
  }

  /** Does this write reach the put callback of a control, and if not, with what error does it fail? */
  function WriteCheck<F(==)>(c: Card<F>, f: F, id: ElemId, indirect: bool): (code: int)
    ensures code <= 0
  {
    var i := FindId(c.controls, id);
    if i == |c.controls| then ENOENT
    else if c.controls[i].access.indirect != indirect then EACCES
    else if !c.controls[i].access.write || !c.controls[i].access.hasPut
         || (c.controls[i].owner.Some? && c.controls[i].owner != Some(f)) then EPERM
    else 0
  }

  /** snd_ctl_elem_write, where the put callback, if it runs, returns `put`. */
  function Write<F(==)>(c: Card<F>, f: F, id: ElemId, indirect: bool, put: int): (Card<F>, int) {
    var code := WriteCheck(c, f, id, indirect);
    if code != 0 then (c, code)
    else if put > 0 then (NotifyAll(c, MASK_VALUE, c.controls[FindId(c.controls, id)].id), 0)
    else (c, put)
  }

  function Open<F>(c: Card<F>, f: F): Card<F> {
    c.(files := c.files + [f], readers := c.readers[f := NewReader])
  }

  function Disowned<F(==)>(s: seq<Ctl<F>>, f: F): (t: seq<Ctl<F>>)
    ensures |t| == |s|
    ensures forall i :: 0 <= i < |s| ==> t[i] == if s[i].owner == Some(f) then s[i].(owner := None) else s[i]
  {
    if s == [] then []
    else [if s[0].owner == Some(f) then s[0].(owner := None) else s[0]] + Disowned(s[1..], f)
  }

  function Position<T(==)>(s: seq<T>, x: T): (i: nat)
    ensures i <= |s| && (i < |s| ==> s[i] == x) && (i == |s| ==> x !in s)
  {
    if s == [] then 0 else if s[0] == x then 0 else 1 + Position(s[1..], x)
  }

  function Release<F(==)>(c: Card<F>, f: F): Card<F>
    requires f in c.files
  {
    Card(Disowned(c.controls, f), c.count, c.lastNumid, Drop(c.files, Position(c.files, f)), c.readers - {f})
  }

  function WithReader<F>(c: Card<F>, f: F, r: Reader): Card<F> {
    c.(readers := c.readers[f := r])
  }

  function Min(a: nat, b: nat): nat { if a < b then a else b }

  /** A read with room for n events. */
  function TakeMany(r: Reader, n: nat): Reader {
    if r.subscribed then r.(events := r.events[Min(n, |r.events|)..]) else r
  }

  datatype Call<F> =
    | CallOpen(f: F) | CallRelease(f: F)
    | CallNotify(mask: Mask, id: ElemId)
    | CallAdd(ctl: Ctl<F>) | CallRemove(i: nat) | CallRemoveId(id: ElemId) | CallRename(src: ElemId, dst: ElemId)
    | CallLock(f: F, id: ElemId) | CallUnlock(f: F, id: ElemId)
    | CallWrite(f: F, id: ElemId, indirect: bool, put: int)
    | CallSubscribe(f: F, value: int) | CallRead(f: F, room: nat)

  /** What a call demands: the file is open (or, for open, new), a new control has no owner or an open one. */
  predicate CanCall<F(==)>(c: Card<F>, call: Call<F>) {
    match call
    case CallOpen(f) => f !in c.readers
    case CallRelease(f) => f in c.files
    case CallNotify(mask, id) => true
    case CallAdd(ctl) => ctl.owner.Some? ==> ctl.owner.value in c.readers
    case CallRemove(i) => i < |c.controls|
    case CallRemoveId(id) => true
    case CallRename(src, dst) => true
    case CallLock(f, id) => f in c.readers
    case CallUnlock(f, id) => f in c.readers
    case CallWrite(f, id, indirect, put) => f in c.readers
    case CallSubscribe(f, value) => f in c.readers
    case CallRead(f, room) => f in c.readers
  }

  function Step<F(==)>(c: Card<F>, call: Call<F>): Card<F>
    requires CanCall(c, call)
  {
    match call
    case CallOpen(f) => Open(c, f)
    case CallRelease(f) => Release(c, f)
    case CallNotify(mask, id) => NotifyAll(c, mask, id)
    case CallAdd(ctl) => Add(c, ctl).0
    case CallRemove(i) => RemoveAt(c, i)
    case CallRemoveId(id) => RemoveId(c, id).0
    case CallRename(src, dst) => RenameId(c, src, dst).0
    case CallLock(f, id) => Lock(c, f, id).0
    case CallUnlock(f, id) => Unlock(c, f, id).0
    case CallWrite(f, id, indirect, put) => Write(c, f, id, indirect, put).0
    case CallSubscribe(f, value) => WithReader(c, f, Subscribed(c.readers[f], value))
    case CallRead(f, room) => WithReader(c, f, TakeMany(c.readers[f], room))
  }

  predicate Legal<F(==)>(c: Card<F>, run: seq<Call<F>>)
    decreases |run|
  {
    run == [] || (CanCall(c, run[0]) && Legal(Step(c, run[0]), run[1..]))
  }

  function AfterRun<F(==)>(c: Card<F>, run: seq<Call<F>>): Card<F>
    requires Legal(c, run)
    decreases |run|
  {
    if run == [] then c else AfterRun(Step(c, run[0]), run[1..])
  }

  // ---------------------------------------------------------------- listing

  /** snd_ctl_elem_list: offset and space are unsigned in the request and signed in the loops. */
  function ElemList<F>(c: Card<F>, offset: int, space: int): seq<ElemId>
  {
    var o := Countdown(S32(offset), |c.controls|);
    Ids(c.controls)[o..o + Countdown(S32(space), |c.controls| - o)]
  }

  /** How many steps a loop makes that counts n down along a list with `most` entries left. */
  function Countdown(n: int, most: nat): nat { if n < 0 then 0 else if n > most then most else n }

  function Ids<F>(s: seq<Ctl<F>>): (r: seq<ElemId>)
    ensures |r| == |s| && forall i :: 0 <= i < |s| ==> r[i] == s[i].id
  {
    if s == [] then [] else [s[0].id] + Ids(s[1..])
  }
}
