/** The register of src/outputs.c through which backends call back to the player, always in a
    later event. */
module DeferredCallbacks {
  import opened Words

  const OUTPUTS_MAX_CALLBACKS := 64

  /** A slot of the register; `device` is the address it was registered for, which is only ever
      compared. */
  datatype Slot = Slot(cb: Option<nat>, device: Option<nat>, ready: bool, deviceId: nat, state: int)

  const BLANK := Slot(None, None, false, 0, 0)

  /** What decides whether a listed device is dropped when its session ends. */
  datatype Device = Device(advertised: bool, session: bool, state: int)

  datatype Registration = Registration(device: nat, cb: nat)
  datatype Report = Report(deviceId: nat, state: int)

  /** A callback that was made: for which registration, with what arguments, and which ids were in
      the device list at that moment. */
  datatype Call = Call(serial: nat, cb: nat, device: Option<nat>, state: int, listed: set<nat>)

  /** Registrations are numbered in the order they are made. */
  datatype History = History(issued: seq<Registration>, replaced: set<nat>, reports: map<nat, Report>, calls: seq<Call>)

  /** The register, the number of the registration that each slot holds, and the history. */
  datatype View = View(slots: seq<Slot>, serials: seq<nat>, history: History)

  predicate Occupied(v: View, i: nat) { i < |v.slots| && v.slots[i].cb.Some? }

  predicate Fired(calls: seq<Call>, n: nat) { exists k :: 0 <= k < |calls| && calls[k].serial == n }

  predicate Held(v: View, n: nat) { exists i: nat :: Occupied(v, i) && i < |v.serials| && v.serials[i] == n }

  /** A slot is blank or holds a registration that has neither fired nor been replaced; if it is
      ready, it holds the last report. */
  predicate SlotOk(v: View, i: nat)
    requires i < |v.slots| == |v.serials|
  {
    var slot, n, h := v.slots[i], v.serials[i], v.history;
    if slot.cb.None? then slot == BLANK
    else
      && slot.device.Some? && n < |h.issued| && h.issued[n] == Registration(slot.device.value, slot.cb.value)
      && n !in h.replaced && !Fired(h.calls, n)
      && (slot.ready ==> n in h.reports && h.reports[n] == Report(slot.deviceId, slot.state))
  }

  /** No two slots for one device, nor for one registration. */
  ghost predicate Apart(v: View)
    requires |v.slots| == |v.serials|
  {
    forall i: nat, j: nat :: i < j && Occupied(v, i) && Occupied(v, j) ==>
      v.slots[i].device != v.slots[j].device && v.serials[i] != v.serials[j]
  }

  /** A call is for a registration that was reported ready and not replaced, with the callback
      registered and the state reported, for no device or for one in the list. */
  predicate CallOk(h: History, c: Call) {
    && c.serial < |h.issued| && c.cb == h.issued[c.serial].cb && c.serial !in h.replaced
    && c.serial in h.reports && c.state == h.reports[c.serial].state
    && (c.device.Some? ==> c.device.value == h.reports[c.serial].deviceId && c.device.value in c.listed)
  }

  ghost predicate CallsOk(h: History) {
    && (forall k :: 0 <= k < |h.calls| ==> CallOk(h, h.calls[k]))
    && (forall j, k :: 0 <= j < k < |h.calls| ==> h.calls[j].serial != h.calls[k].serial)
  }

  /** No registration is lost. */
  ghost predicate Accounted(v: View) {
    forall n: nat :: n < |v.history.issued| ==> n in v.history.replaced || Fired(v.history.calls, n) || Held(v, n)
  }

  ghost predicate Consistent(v: View) {
    && |v.slots| == |v.serials|
    && (forall i: nat :: i < |v.slots| ==> SlotOk(v, i))
    && Apart(v) && CallsOk(v.history) && Accounted(v)
    && (forall n :: n in v.history.replaced ==> n < |v.history.issued|)
  }

  lemma ConsistentSlot(v: View, i: nat)
    requires Consistent(v) && i < |v.slots|
    ensures |v.slots| == |v.serials| && SlotOk(v, i)
    ensures Occupied(v, i) <==> v.slots[i].device.Some?
    ensures v.slots[i].ready ==> Occupied(v, i)
  {
  }

  /** Only a later registration for the same device replaces one. */
  ghost predicate Superseded(h: History) {
    forall n: nat :: n in h.replaced ==> exists m: nat :: n < m < |h.issued| && h.issued[m].device == h.issued[n].device
  }

  /** Superseded survives a registration that replaced nothing but others of its device. */
  lemma SupersededBy(before: History, h: History, device: nat, cb: nat)
    requires Superseded(before) && h.issued == before.issued + [Registration(device, cb)]
    requires forall n: nat :: n in before.replaced ==> n < |before.issued|
    requires forall n: nat :: n in h.replaced ==>
               n in before.replaced || (n < |before.issued| && before.issued[n].device == device)
    ensures Superseded(h)
  {
    forall n: nat | n in h.replaced
      ensures exists m: nat :: n < m < |h.issued| && h.issued[m].device == h.issued[n].device
    {
      if n in before.replaced {
        var m: nat :| n < m < |before.issued| && before.issued[m].device == before.issued[n].device;
        assert h.issued[m].device == h.issued[n].device;
      } else {
        assert h.issued[|before.issued|].device == h.issued[n].device;
      }
    }
  }

  lemma ReplacedIssued(v: View, n: nat)
    requires Consistent(v) && n in v.history.replaced
    ensures n < |v.history.issued|
  {
  }

  // ----- The four things that can happen to a slot -----

  function Cleared(v: View, i: nat): View
    requires i < |v.slots| == |v.serials|
  {
    View(v.slots[i := BLANK], v.serials, v.history.(replaced := v.history.replaced + {v.serials[i]}))
  }

  function Registered(v: View, i: nat, device: nat, cb: nat): View
    requires i < |v.slots| == |v.serials|
  {
    View(v.slots[i := Slot(Some(cb), Some(device), false, 0, 0)], v.serials[i := |v.history.issued|],
         v.history.(issued := v.history.issued + [Registration(device, cb)]))
  }

  function Reported(v: View, i: nat, deviceId: nat, state: int): View
    requires i < |v.slots| == |v.serials|
  {
    View(v.slots[i := v.slots[i].(ready := true, deviceId := deviceId, state := state)], v.serials,
         v.history.(reports := v.history.reports[v.serials[i] := Report(deviceId, state)]))
  }

  function Made(v: View, i: nat, c: Call): View
    requires i < |v.slots| == |v.serials|
  {
    View(v.slots[i := BLANK], v.serials, v.history.(calls := v.history.calls + [c]))
  }

  lemma ClearedKeeps(v: View, i: nat)
    requires Consistent(v) && Occupied(v, i)
    ensures Consistent(Cleared(v, i))
  {
    var w := Cleared(v, i);
    assert SlotOk(v, i);
    forall j: nat | j < |w.slots| ensures SlotOk(w, j) {
      assert SlotOk(v, j);
      assert j != i && Occupied(v, j) ==> v.serials[j] != v.serials[i];
    }
    forall k | 0 <= k < |w.history.calls| ensures CallOk(w.history, w.history.calls[k]) {
      assert CallOk(v.history, v.history.calls[k]);
      assert v.history.calls[k].serial != v.serials[i];
    }
    forall n: nat | n < |w.history.issued| && n !in w.history.replaced && !Fired(w.history.calls, n)
      ensures Held(w, n)
    {
      var j: nat :| Occupied(v, j) && v.serials[j] == n;
      assert Occupied(w, j);
    }
  }

  lemma RegisteredKeeps(v: View, i: nat, device: nat, cb: nat)
    requires Consistent(v) && i < |v.slots| && !Occupied(v, i)
    requires forall j: nat :: Occupied(v, j) ==> v.slots[j].device != Some(device)
    ensures Consistent(Registered(v, i, device, cb))
  {
    var w, n := Registered(v, i, device, cb), |v.history.issued|;
    forall k | 0 <= k < |w.history.calls|
      ensures CallOk(w.history, w.history.calls[k]) && w.history.calls[k].serial < n
    {
      assert CallOk(v.history, v.history.calls[k]);
    }
    forall j: nat | j < |w.slots| ensures SlotOk(w, j) && (Occupied(v, j) ==> v.serials[j] < n) {
      assert SlotOk(v, j);
    }
    forall m: nat | m < |w.history.issued| && m !in w.history.replaced && !Fired(w.history.calls, m)
      ensures Held(w, m)
    {
      if m == n {
        assert Occupied(w, i) && w.serials[i] == m;
      } else {
        var j: nat :| Occupied(v, j) && v.serials[j] == m;
        assert Occupied(w, j) && w.serials[j] == m;
      }
    }
  }

  lemma ReportedKeeps(v: View, i: nat, deviceId: nat, state: int)
    requires Consistent(v) && Occupied(v, i)
    ensures Consistent(Reported(v, i, deviceId, state))
  {
    var w := Reported(v, i, deviceId, state);
    assert SlotOk(v, i);
    forall j: nat | j < |w.slots| ensures SlotOk(w, j) {
      assert SlotOk(v, j);
      assert j != i && Occupied(v, j) ==> v.serials[j] != v.serials[i];
    }
    forall k | 0 <= k < |w.history.calls| ensures CallOk(w.history, w.history.calls[k]) {
      assert CallOk(v.history, v.history.calls[k]);
      assert v.history.calls[k].serial != v.serials[i];
    }
    assert forall j: nat :: Occupied(w, j) <==> Occupied(v, j);
    forall n: nat | n < |w.history.issued| && n !in w.history.replaced && !Fired(w.history.calls, n)
      ensures Held(w, n)
    {
      var j: nat :| Occupied(v, j) && v.serials[j] == n;
      assert Occupied(w, j);
    }
  }

  lemma MadeKeeps(v: View, i: nat, c: Call)
    requires Consistent(v) && Occupied(v, i) && v.slots[i].ready
    requires c.serial == v.serials[i] && c.cb == v.slots[i].cb.value && c.state == v.slots[i].state
    requires c.device.Some? ==> c.device.value == v.slots[i].deviceId && c.device.value in c.listed
    ensures Consistent(Made(v, i, c)) && Fired(Made(v, i, c).history.calls, v.serials[i])
  {
    var w := Made(v, i, c);
    assert SlotOk(v, i);
    assert w.history.calls[|v.history.calls|] == c;
    forall n: nat ensures Fired(w.history.calls, n) <==> Fired(v.history.calls, n) || n == c.serial {
      FiredMore(v.history.calls, [c], n);
    }
    forall j: nat | j < |w.slots| ensures SlotOk(w, j) {
      assert SlotOk(v, j);
      assert j != i && Occupied(v, j) ==> v.serials[j] != v.serials[i];
    }
    forall k | 0 <= k < |w.history.calls| ensures CallOk(w.history, w.history.calls[k]) {
      assert k < |v.history.calls| ==> CallOk(v.history, v.history.calls[k]);
    }
    forall n: nat | n < |w.history.issued| && n !in w.history.replaced && !Fired(w.history.calls, n)
      ensures Held(w, n)
    {
      var j: nat :| Occupied(v, j) && v.serials[j] == n;
      assert Occupied(w, j);
    }
  }

  lemma FiredMore(calls: seq<Call>, more: seq<Call>, n: nat)
    ensures Fired(calls + more, n) <==> Fired(calls, n) || Fired(more, n)
  {
    var all := calls + more;
    if k :| 0 <= k < |calls| && calls[k].serial == n {
      assert all[k].serial == n;
    }
    if k :| 0 <= k < |more| && more[k].serial == n {
      assert all[|calls| + k].serial == n;
    }
  }

  // ----- What a stretch of a run leaves of earlier registrations -----

  /** A registration that was in a slot is still there, as ready as it was, or has been replaced. */
  predicate Kept(v: View, w: View, i: nat)
    requires i < |v.slots| == |v.serials| == |w.slots| == |w.serials|
  {
    Occupied(v, i) ==>
      || v.serials[i] in w.history.replaced
      || (Occupied(w, i) && w.serials[i] == v.serials[i] && (v.slots[i].ready ==> w.slots[i].ready))
  }

  /** From v to w no callback was made, and nothing was lost. */
  ghost predicate Quiet(v: View, w: View) {
    && |v.slots| == |v.serials| == |w.slots| == |w.serials|
    && v.history.calls == w.history.calls && v.history.replaced <= w.history.replaced
    && v.history.issued <= w.history.issued
    && forall i: nat :: i < |v.slots| ==> Kept(v, w, i)
  }

  lemma QuietTransitive(u: View, v: View, w: View)
    requires Quiet(u, v) && Quiet(v, w)
    ensures Quiet(u, w)
  {
    forall i: nat | i < |u.slots| ensures Kept(u, w, i) {
      assert Kept(u, v, i) && Kept(v, w, i);
    }
  }

  lemma QuietReflexive(v: View)
    requires |v.slots| == |v.serials|
    ensures Quiet(v, v)
  {
  }

  lemma RegisteredIsQuiet(v: View, i: nat, device: nat, cb: nat)
    requires Consistent(v) && i < |v.slots| && !Occupied(v, i)
    ensures Quiet(v, Registered(v, i, device, cb))
  {
    var w := Registered(v, i, device, cb);
    forall j: nat | j < |v.slots| ensures Kept(v, w, j) {
    }
  }

  lemma ReportedIsQuiet(v: View, i: nat, deviceId: nat, state: int)
    requires Consistent(v) && Occupied(v, i)
    ensures Quiet(v, Reported(v, i, deviceId, state))
  {
    var w := Reported(v, i, deviceId, state);
    forall j: nat | j < |v.slots| ensures Kept(v, w, j) {
    }
  }

  /** Where a pass over the register has come to: slots it has passed are settled, those ahead of
      it are as they were or have been replaced. */
  ghost predicate Passing(before: View, w: View, i: nat) {
    && |before.slots| == |before.serials| == |w.slots| == |w.serials| && before.history.calls <= w.history.calls
    && |w.history.calls| <= |before.history.calls| + i
    && (forall k: nat :: k < i && k < |before.slots| && Occupied(before, k) && before.slots[k].ready ==>
          Settled(before, w, k))
    && (forall k: nat :: i <= k < |before.slots| ==> Kept(before, w, k))
  }

  /** The registration of slot k has been called or replaced since. */
  predicate Settled(before: View, w: View, k: nat)
    requires k < |before.serials|
  {
    before.serials[k] in w.history.replaced || Fired(w.history.calls, before.serials[k])
  }

  lemma PassStarts(v: View)
    requires Consistent(v)
    ensures Passing(v, v, 0)
  {
  }

  lemma PassSkips(before: View, w: View, i: nat)
    requires Passing(before, w, i) && i < |w.slots| && !w.slots[i].ready
    ensures Passing(before, w, i + 1)
  {
    assert Kept(before, w, i);
  }

  lemma PassCalls(before: View, w: View, i: nat, c: Call)
    requires Passing(before, w, i) && i < |w.slots| && Occupied(w, i) && c.serial == w.serials[i]
    ensures Passing(before, Made(w, i, c), i + 1)
  {
    var m := Made(w, i, c);
    assert m.history.calls[|w.history.calls|] == c;
    assert Kept(before, w, i);
    forall k: nat | k < i + 1 && k < |before.slots| && Occupied(before, k) && before.slots[k].ready
      ensures Settled(before, m, k)
    {
      if k < i {
        assert Settled(before, w, k);
        FiredMore(w.history.calls, [c], before.serials[k]);
      }
    }
    forall k: nat | i + 1 <= k < |before.slots| ensures Kept(before, m, k) {
      assert Kept(before, w, k);
    }
  }

  lemma PassQuietly(before: View, w: View, x: View, i: nat)
    requires Passing(before, w, i) && Quiet(w, x)
    ensures Passing(before, x, i)
  {
    forall k: nat | k < i && k < |before.slots| && Occupied(before, k) && before.slots[k].ready
      ensures Settled(before, x, k)
    {
      assert Settled(before, w, k);
    }
    forall k: nat | i <= k < |before.slots| ensures Kept(before, x, k) {
      assert Kept(before, w, k) && Kept(w, x, k);
    }
  }

  /** Everything that was ready when the pass began has been called in it, unless replaced. */
  lemma PassEnds(before: View, w: View, k: nat)
    requires Consistent(before) && Passing(before, w, |before.slots|)
    requires k < |before.slots| && before.slots[k].ready
    ensures before.serials[k] in w.history.replaced
            || Fired(w.history.calls[|before.history.calls|..], before.serials[k])
  {
    ConsistentSlot(before, k);
    assert Settled(before, w, k);
    var n := |before.history.calls|;
    assert w.history.calls == before.history.calls + w.history.calls[n..];
    FiredMore(before.history.calls, w.history.calls[n..], before.serials[k]);
  }

  lemma ClearedIsQuiet(v: View, i: nat)
    requires Consistent(v) && Occupied(v, i)
    ensures Quiet(v, Cleared(v, i))
  {
    var w := Cleared(v, i);
    forall j: nat | j < |v.slots| ensures Kept(v, w, j) {
    }
  }

  // ----- Who gets an answer -----

  /** From v to w, through anything that can happen: a registration stays in its slot until it is
      replaced or called. */
  ghost predicate Later(v: View, w: View) {
    && |v.slots| == |v.serials| == |w.slots| == |w.serials|
    && v.history.calls <= w.history.calls && v.history.replaced <= w.history.replaced
    && v.history.issued <= w.history.issued
    && forall i: nat :: i < |v.slots| ==> Stays(v, w, i)
  }

  predicate Stays(v: View, w: View, i: nat)
    requires i < |v.slots| == |v.serials| == |w.slots| == |w.serials|
  {
    Occupied(v, i) ==>
      || v.serials[i] in w.history.replaced || Fired(w.history.calls, v.serials[i])
      || (Occupied(w, i) && w.serials[i] == v.serials[i])
  }

  lemma QuietIsLater(v: View, w: View)
    requires Quiet(v, w)
    ensures Later(v, w)
  {
    forall i: nat | i < |v.slots| ensures Stays(v, w, i) {
      assert Kept(v, w, i);
    }
  }

  lemma MadeIsLater(v: View, i: nat, c: Call)
    requires |v.slots| == |v.serials| && Occupied(v, i) && c.serial == v.serials[i]
    ensures Later(v, Made(v, i, c))
  {
    var w := Made(v, i, c);
    assert w.history.calls[|v.history.calls|] == c;
    forall j: nat | j < |v.slots| ensures Stays(v, w, j) {
    }
  }

  lemma LaterTransitive(u: View, v: View, w: View)
    requires Later(u, v) && Later(v, w)
    ensures Later(u, w)
  {
    forall i: nat | i < |u.slots| ensures Stays(u, w, i) {
      assert Stays(u, v, i) && Stays(v, w, i);
      FiredMore(v.history.calls, w.history.calls[|v.history.calls|..], u.serials[i]);
      assert w.history.calls == v.history.calls + w.history.calls[|v.history.calls|..];
    }
  }

  lemma LaterReflexive(v: View)
    requires |v.slots| == |v.serials|
    ensures Later(v, v)
  {
  }

  /** The registration that an answer to slot id reaches. */
  function Hears(w: View, id: int): Option<nat>
    requires |w.slots| == |w.serials|
  {
    if 0 <= id < |w.slots| && w.slots[id].cb.Some? then Some(w.serials[id]) else None
  }

  /** A backend that was given slot id for registration n reaches n with its answer exactly as long
      as n has been neither replaced nor called; after that its answer goes to whoever holds the
      slot, or to nobody. */
  lemma AnswerReachesIff(v: View, w: View, id: nat, n: nat)
    requires Consistent(v) && Consistent(w) && Later(v, w)
    requires Occupied(v, id) && v.serials[id] == n
    ensures Hears(w, id) == Some(n) <==> n !in w.history.replaced && !Fired(w.history.calls, n)
  {
    assert Stays(v, w, id);
    assert SlotOk(w, id);
  }

  /** What a callback may do while it runs: register, have a backend report, or change the list. */
  datatype Op =
    | Register(device: nat, cb: Option<nat>)
    | Answer(callbackId: int, deviceId: nat, state: int)
    | Relist(devices: map<nat, Device>)

  class Outputs {
    const register: array<Slot>
    /** The listed devices by id. */
    var devices: map<nat, Device>
    var deferredActive: bool
    ghost var serials: seq<nat>
    ghost var history: History

    ghost function Now(): View
      reads this`serials, this`history, register
    {
      View(register[..], serials, history)
    }

    ghost predicate Registry()
      reads this`serials, this`history, register
    {
      register.Length == OUTPUTS_MAX_CALLBACKS && Consistent(Now())
    }

    ghost predicate Valid()
      reads this`serials, this`history, register
    {
      Registry() && Superseded(history)
    }

    /** Between events a slot that is ready has deferred_cb pending. */
    ghost predicate Alerted()
      reads this`deferredActive, register
    {
      forall k :: 0 <= k < register.Length && register[k].ready ==> deferredActive
    }

    constructor ()
      ensures Alerted() && !deferredActive
      ensures Valid() && fresh(register) && history == History([], {}, map[], []) && devices == map[]
      ensures forall i :: 0 <= i < register.Length ==> register[i] == BLANK
    {
      register := new Slot[OUTPUTS_MAX_CALLBACKS](_ => BLANK);
      serials := seq(OUTPUTS_MAX_CALLBACKS, _ => 0);
      history := History([], {}, map[], []);
      devices, deferredActive := map[], false;
    }

    /** Blanks a slot that holds a registration. */
    method Clear(i: nat)
      requires Registry() && i < register.Length && Occupied(Now(), i)
      modifies this`history, register
      ensures Registry() && Now() == Cleared(old(Now()), i) && Quiet(old(Now()), Now())
    {
      hide Consistent;
      ghost var v := Now();
      ClearedKeeps(v, i);
      ClearedIsQuiet(v, i);
      register[i] := BLANK;
      history := Cleared(v, i).history;
      assert Now() == Cleared(v, i);
    }

    /** callback_remove */
    method CallbackRemove(device: nat)
      requires Registry()
      modifies this`history, register
      ensures Registry() && Quiet(old(Now()), Now())
      ensures forall j: nat :: Occupied(Now(), j) ==> register[j].device != Some(device)
      ensures forall j :: 0 <= j < register.Length ==>
                register[j] == if old(register[j].device) == Some(device) then BLANK else old(register[j])
      ensures history.(replaced := {}) == old(history).(replaced := {}) && serials == old(serials)
      ensures forall n: nat :: n in history.replaced ==>
                n in old(history).replaced || (n < |history.issued| && history.issued[n].device == device)
      ensures (forall j :: 0 <= j < register.Length ==> old(register[j]).device != Some(device)) ==>
                history == old(history)
    {
      hide Consistent, Quiet, Kept;
      ghost var before := Now();
      ConsistentSlot(before, 0);
      QuietReflexive(before);
      var i := 0;
      while i < register.Length
        invariant 0 <= i <= register.Length && Registry() && Quiet(before, Now())
        invariant forall j :: 0 <= j < i ==>
                    register[j] == if before.slots[j].device == Some(device) then BLANK else before.slots[j]
        invariant forall j :: i <= j < register.Length ==> register[j] == before.slots[j]
        invariant history.(replaced := {}) == before.history.(replaced := {})
        invariant forall n: nat :: n in history.replaced ==>
                    n in before.history.replaced || (n < |history.issued| && history.issued[n].device == device)
        invariant (forall j :: 0 <= j < i ==> before.slots[j].device != Some(device)) ==> history == before.history
      {
        if register[i].device == Some(device) {
          ghost var v := Now();
          ConsistentSlot(v, i);
          Clear(i);
          QuietTransitive(before, v, Now());
        }
        i := i + 1;
      }
      forall j: nat | Occupied(Now(), j) ensures register[j].device != Some(device) {
        ConsistentSlot(Now(), j);
      }
    }

    /** callback_add: replaces what the device has registered before, and takes the first slot that
        is free then. It fails without a callback, or when all slots are taken for other devices. */
    method CallbackAdd(device: nat, cb: Option<nat>) returns (ret: int)
      requires Valid()
      modifies this`history, this`serials, register
      ensures Valid() && Quiet(old(Now()), Now()) && Later(old(Now()), Now()) && (old(Alerted()) ==> Alerted())
      ensures forall k :: 0 <= k < register.Length && register[k].ready ==> old(register[k]).ready
      ensures -1 <= ret < register.Length && forall k :: 0 <= k < ret ==> register[k].cb.Some?
      ensures ret == -1 <==> cb.None? || forall i :: 0 <= i < register.Length ==>
                old(register[i].cb).Some? && old(register[i].device) != Some(device)
      ensures if ret == -1 then Now() == old(Now())
              else
                && 0 <= ret < register.Length && register[ret] == Slot(cb, Some(device), false, 0, 0)
                && history.issued == old(history).issued + [Registration(device, cb.value)]
                && serials == old(serials)[ret := |old(history).issued|]
                && history.reports == old(history).reports
                && forall i :: 0 <= i < register.Length && i != ret ==>
                     register[i] == if old(register[i].device) == Some(device) then BLANK else old(register[i])
    {
      hide Consistent, Quiet, Superseded, Later;
      ghost var before := Now();
      ConsistentSlot(before, 0);
      QuietReflexive(before);
      LaterReflexive(before);
      if cb == None {
        return -1;
      }
      CallbackRemove(device);
      ghost var v := Now();
      ConsistentSlot(v, 0);
      var id: nat := 0;
      while id < register.Length && register[id].cb != None
        invariant id <= register.Length
        invariant forall k :: 0 <= k < id ==> register[k].cb.Some?
      {
        id := id + 1;
      }
      if id == register.Length {
        NothingRemoved(before, v, device);
        return -1;
      }
      SomethingFree(before, v, id, device);
      forall n: nat | n in before.history.replaced ensures n < |before.history.issued| {
        ReplacedIssued(before, n);
      }
      RegisteredKeeps(v, id, device, cb.value);
      RegisteredIsQuiet(v, id, device, cb.value);
      register[id] := Slot(cb, Some(device), false, 0, 0);
      serials := serials[id := |history.issued|];
      history := Registered(v, id, device, cb.value).history;
      assert Now() == Registered(v, id, device, cb.value);
      SupersededBy(before.history, history, device, cb.value);
      QuietTransitive(before, v, Now());
      QuietIsLater(before, Now());
      ret := id;
    }

    /** outputs_cb: a backend's answer, addressed to a slot. Whoever holds the slot gets it. */
    method OutputsCb(callbackId: int, deviceId: nat, state: int) returns (ghost heard: Option<nat>)
      requires Valid()
      modifies this`history, this`deferredActive, register
      ensures Valid() && Quiet(old(Now()), Now()) && Later(old(Now()), Now()) && (old(Alerted()) ==> Alerted())
      ensures forall k :: 0 <= k < register.Length && register[k].ready ==> old(register[k]).ready || deferredActive
      ensures heard == Hears(old(Now()), callbackId)
      ensures history == if heard.None? then old(history)
                         else old(history).(reports := old(history).reports[heard.value := Report(deviceId, state)])
      ensures if 0 <= callbackId < register.Length && old(register[callbackId].cb).Some?
              then Now() == Reported(old(Now()), callbackId, deviceId, state) && deferredActive
              else Now() == old(Now()) && deferredActive == old(deferredActive)
    {
      hide Consistent, Quiet, Later;
      ghost var v := Now();
      ConsistentSlot(v, 0);
      QuietReflexive(v);
      LaterReflexive(v);
      heard := Hears(v, callbackId);
      if callbackId < 0 {
        return;
      }
      if !(callbackId < register.Length) || register[callbackId].cb == None {
        return;
      }
      ReportedKeeps(v, callbackId, deviceId, state);
      ReportedIsQuiet(v, callbackId, deviceId, state);
      register[callbackId] := register[callbackId].(ready := true, deviceId := deviceId, state := state);
      history := Reported(v, callbackId, deviceId, state).history;
      assert Now() == Reported(v, callbackId, deviceId, state);
      QuietIsLater(v, Now());
      deferredActive := true;
    }

    /** A callback runs. */
    method Run(ops: seq<Op>)
      requires Valid()
      modifies this, register
      ensures Valid() && Quiet(old(Now()), Now()) && (old(deferredActive) ==> deferredActive)
      ensures forall k :: 0 <= k < register.Length && register[k].ready ==> old(register[k]).ready || deferredActive
    {
      hide Consistent, Quiet;
      ConsistentSlot(Now(), 0);
      QuietReflexive(Now());
      for k := 0 to |ops|
        invariant Valid() && Quiet(old(Now()), Now()) && (old(deferredActive) ==> deferredActive)
        invariant forall j :: 0 <= j < register.Length && register[j].ready ==> old(register[j]).ready || deferredActive
      {
        ghost var v := Now();
        match ops[k]
        case Register(device, cb) =>
          var id := CallbackAdd(device, cb);
          QuietTransitive(old(Now()), v, Now());
        case Answer(callbackId, deviceId, state) =>
          ghost var heard := OutputsCb(callbackId, deviceId, state);
          QuietTransitive(old(Now()), v, Now());
        case Relist(list) =>
          devices := list;
      }
    }

    /** The device for the callback. One that has stopped or failed and is not advertised any more
        is taken off the list. */
    method Resolve(deviceId: nat, state: int) returns (device: Option<nat>)
      modifies this`devices
      ensures device == if deviceId in old(devices)
                           && (old(devices)[deviceId].advertised || old(devices)[deviceId].session)
                        then Some(deviceId) else None
      ensures if device.Some? then devices == old(devices)[deviceId := old(devices)[deviceId].(state := state)]
              else devices == old(devices) - {deviceId}
    {
      device := if deviceId in devices then Some(deviceId) else None;
      if device.Some? && !devices[deviceId].advertised && !devices[deviceId].session {
        devices := devices - {deviceId};
        device := None;
      } else if device.Some? {
        devices := devices[deviceId := devices[deviceId].(state := state)];
      } else {
        assert devices == devices - {deviceId};
      }
    }

    /** deferred_cb, an event that is pending no more once it runs. A callback may do anything while
        it runs: `script` says what it does for each slot. Whatever that is, every registration
        that was reported ready is called in this pass unless it is replaced before its turn
        comes; and one that is reported behind the place the pass has come to has another pass
        pending. */
    method DeferredCb(script: nat -> seq<Op>)
      requires Valid()
      modifies this, register
      ensures Valid() && Later(old(Now()), Now()) && Alerted()
      ensures old(history).calls <= history.calls && |history.calls| <= |old(history).calls| + OUTPUTS_MAX_CALLBACKS
      ensures forall k: nat :: k < register.Length && old(register[k]).ready ==>
                old(serials)[k] in history.replaced || Fired(history.calls[|old(history).calls|..], old(serials)[k])
    {
      hide Consistent, Quiet, Passing, Superseded, Later;
      ghost var before := Now();
      ConsistentSlot(before, 0);
      LaterReflexive(before);
      PassStarts(before);
      deferredActive := false;
      var id: nat := 0;
      while id < register.Length
        invariant id <= register.Length && Valid() && Passing(before, Now(), id) && Later(before, Now())
        invariant forall k :: 0 <= k < id && register[k].ready ==> deferredActive
      {
        if register[id].ready {
          ghost var v := Now();
          var c := MakeCall(id);
          PassCalls(before, v, id, c);
          ConsistentSlot(v, id);
          MadeIsLater(v, id, c);
          ghost var w := Now();
          Run(script(id));
          PassQuietly(before, w, Now(), id + 1);
          QuietIsLater(w, Now());
          LaterTransitive(before, v, w);
          LaterTransitive(before, w, Now());
        } else {
          PassSkips(before, Now(), id);
        }
        id := id + 1;
      }
      PassTotals(before, Now(), id);
      forall k: nat | k < register.Length && old(register[k]).ready
        ensures old(serials)[k] in history.replaced || Fired(history.calls[|old(history).calls|..], old(serials)[k])
      {
        PassEnds(before, Now(), k);
      }
    }

    /** What deferred_cb does with a slot that is ready, up to the call itself. */
    method MakeCall(id: nat) returns (ghost c: Call)
      requires Valid() && id < register.Length && register[id].ready
      modifies this`history, this`devices, register
      ensures Valid() && Occupied(old(Now()), id) && Now() == Made(old(Now()), id, c)
      ensures c.serial == serials[id] && c.cb == old(register[id]).cb.value && c.state == old(register[id]).state
      ensures var id_, had := old(register[id]).deviceId, old(devices);
              && c.listed == devices.Keys
              && c.device == (if id_ in had && (had[id_].advertised || had[id_].session) then Some(id_) else None)
              && devices == if c.device.Some? then had[id_ := had[id_].(state := c.state)] else had - {id_}
    {
      hide Consistent;
      ghost var v := Now();
      ConsistentSlot(v, id);
      var slot := register[id];
      var device := Resolve(slot.deviceId, slot.state);
      c := Call(serials[id], slot.cb.value, device, slot.state, devices.Keys);
      MadeKeeps(v, id, c);
      register[id] := BLANK;
      history := Made(v, id, c).history;
      assert Now() == Made(v, id, c);
    }
  }

  /** An answer that goes astray: a device registers twice, the second registration takes the slot
      that the first has to give up, and the backend that was given the first answers late. The
      second is ready then, with the state meant for the first. */
  method LateAnswer(device: nat, first: nat, second: nat, deviceId: nat, state: int)
      returns (o: Outputs, ghost heard: Option<nat>)
    ensures o.Valid() && o.history.issued == [Registration(device, first), Registration(device, second)]
    ensures heard == Some(1) && o.register.Length == 64
    ensures o.register[0] == Slot(Some(second), Some(device), true, deviceId, state)
  {
    hide Consistent, Quiet, Later, Superseded;
    o := new Outputs();
    ConsistentSlot(o.Now(), 0);
    assert o.register[0] == BLANK;
    var id := o.CallbackAdd(device, Some(first));
    assert id == 0;
    ConsistentSlot(o.Now(), 0);
    var id' := o.CallbackAdd(device, Some(second));
    assert id' == 0;
    heard := o.OutputsCb(id, deviceId, state);
  }

  lemma PassTotals(before: View, w: View, i: nat)
    requires Passing(before, w, i)
    ensures before.history.calls <= w.history.calls && |w.history.calls| <= |before.history.calls| + i
  {
  }

  /** When every slot is taken after the removal, the removal found nothing. */
  lemma NothingRemoved(before: View, v: View, device: nat)
    requires Consistent(before) && Consistent(v) && |v.slots| == |before.slots|
    requires forall j :: 0 <= j < |v.slots| ==>
               v.slots[j].cb.Some?
               && v.slots[j] == (if before.slots[j].device == Some(device) then BLANK else before.slots[j])
    ensures v.slots == before.slots && forall j :: 0 <= j < |v.slots| ==> before.slots[j].device != Some(device)
  {
  }

  lemma SomethingFree(before: View, v: View, id: nat, device: nat)
    requires Consistent(before) && Quiet(before, v) && id < |v.slots| && v.slots[id].cb.None?
    requires v.slots[id] == if before.slots[id].device == Some(device) then BLANK else before.slots[id]
    ensures before.slots[id].cb.None? || before.slots[id].device == Some(device)
  {
  }
}
