/** The device list of src/outputs.c: a linked list that a swap sort keeps in order of priority and
    then of name, whatever its case. */
module DeviceList {
  import opened Words
  import opened RtspText

  /** strcasecmp(a, b) > 0. */
  predicate GreaterIgnoreCase(a: string, b: string) {
    a != "" && (
      || b == "" || Lower(a[0]) > Lower(b[0])
      || (Lower(a[0]) == Lower(b[0]) && GreaterIgnoreCase(a[1..], b[1..])))
  }

  lemma {:induction false} GreaterAsymmetric(a: string, b: string)
    requires GreaterIgnoreCase(a, b)
    ensures !GreaterIgnoreCase(b, a)
  {
    if b != "" && Lower(a[0]) == Lower(b[0]) {
      GreaterAsymmetric(a[1..], b[1..]);
    }
  }

  /** Not being greater is transitive. */
  lemma {:induction false} NotGreaterTransitive(a: string, b: string, c: string)
    requires !GreaterIgnoreCase(a, b) && !GreaterIgnoreCase(b, c)
    ensures !GreaterIgnoreCase(a, c)
  {
    if a != "" && b != "" && c != "" && Lower(a[0]) == Lower(b[0]) == Lower(c[0]) {
      NotGreaterTransitive(a[1..], b[1..], c[1..]);
    }
  }

  /** Later in the alphabet, whatever the case: at the first place where they differ, the letter is
      a later one, or the other name has ended. */
  ghost predicate LaterInAlphabet(a: string, b: string) { exists k: nat :: LaterAt(a, b, k) }

  predicate LaterAt(a: string, b: string, k: nat) {
    k < |a| && k <= |b| && SameLetters(a[..k], b[..k]) && (k == |b| || Small(a[k]) > Small(b[k]))
  }

  lemma {:induction false} GreaterIsLater(a: string, b: string) returns (k: nat)
    requires GreaterIgnoreCase(a, b)
    ensures LaterAt(a, b, k)
  {
    LowerIsSmall();
    k := 0;
    if b != "" && Lower(a[0]) == Lower(b[0]) {
      var i := GreaterIsLater(a[1..], b[1..]);
      k := i + 1;
      LettersInFront(a, b, i);
    }
  }

  lemma LettersInFront(a: string, b: string, i: nat)
    requires i < |a| && i < |b|
    ensures SameLetters(a[..i + 1], b[..i + 1]) <==> Small(a[0]) == Small(b[0]) && SameLetters(a[1..][..i], b[1..][..i])
  {
    assert forall j :: 0 <= j < i ==> a[..i + 1][j + 1] == a[1..][..i][j] && b[..i + 1][j + 1] == b[1..][..i][j];
    if SameLetters(a[..i + 1], b[..i + 1]) {
      assert a[..i + 1][0] == a[0] && b[..i + 1][0] == b[0];
    } else if SameLetters(a[1..][..i], b[1..][..i]) && Small(a[0]) == Small(b[0]) {
      var x, y := a[..i + 1], b[..i + 1];
      forall j | 0 <= j < |x| ensures Small(x[j]) == Small(y[j]) {
        assert j > 0 ==> x[j] == a[1..][..i][j - 1] && y[j] == b[1..][..i][j - 1];
      }
    }
  }

  lemma {:induction false} LaterIsGreater(a: string, b: string, k: nat)
    requires LaterAt(a, b, k)
    ensures GreaterIgnoreCase(a, b)
  {
    LowerIsSmall();
    if k > 0 {
      LettersInFront(a, b, k - 1);
      LaterIsGreater(a[1..], b[1..], k - 1);
    }
  }

  lemma GreaterIff(a: string, b: string)
    ensures GreaterIgnoreCase(a, b) <==> LaterInAlphabet(a, b)
  {
    if GreaterIgnoreCase(a, b) {
      var k := GreaterIsLater(a, b);
    }
    forall k: nat | LaterAt(a, b, k) ensures GreaterIgnoreCase(a, b) {
      LaterIsGreater(a, b, k);
    }
  }

  /** What a device is sorted by. */
  datatype Key = SortKey(priority: int, name: string)

  predicate After(a: Key, b: Key) {
    a.priority > b.priority || (a.priority == b.priority && GreaterIgnoreCase(a.name, b.name))
  }

  /** Equal for the order. */
  predicate Tied(a: Key, b: Key) { !After(a, b) && !After(b, a) }

  lemma AfterLaws(a: Key, b: Key, c: Key)
    ensures After(a, b) ==> !After(b, a)
    ensures !After(a, b) && !After(b, c) ==> !After(a, c)
  {
    if After(a, b) && a.priority == b.priority {
      GreaterAsymmetric(a.name, b.name);
    }
    if !After(a, b) && !After(b, c) && a.priority == c.priority {
      NotGreaterTransitive(a.name, b.name, c.name);
    }
  }

  /** Devices that cannot be told apart by the order cannot be told apart from anything else by
      it either. */
  lemma TiedAlike(a: Key, b: Key, e: Key)
    requires Tied(a, e) && Tied(b, e)
    ensures Tied(a, b)
  {
    AfterLaws(a, e, b);
    AfterLaws(b, e, a);
  }

  // ----- Sorting, on sequences -----

  predicate Sorted<T>(s: seq<(T, Key)>) {
    forall i, j :: 0 <= i < j < |s| ==> !After(s[i].1, s[j].1)
  }

  /** Priorities never decrease along the list, and names of equal priority are in alphabetical
      order, whatever their case. */
  ghost predicate InOrderOfNames<T>(s: seq<(T, Key)>) {
    forall i, j :: 0 <= i < j < |s| ==>
      && s[i].1.priority <= s[j].1.priority
      && (s[i].1.priority == s[j].1.priority ==> !LaterInAlphabet(s[i].1.name, s[j].1.name))
  }

  lemma SortedIff<T>(s: seq<(T, Key)>)
    ensures Sorted(s) <==> InOrderOfNames(s)
  {
    hide GreaterIgnoreCase, LaterInAlphabet;
    forall i, j | 0 <= i < j < |s|
      ensures GreaterIgnoreCase(s[i].1.name, s[j].1.name) <==> LaterInAlphabet(s[i].1.name, s[j].1.name)
    {
      GreaterIff(s[i].1.name, s[j].1.name);
    }
  }

  /** The elements that tie with e, in order. */
  function TiedWith<T>(s: seq<(T, Key)>, e: Key): seq<(T, Key)> {
    if s == [] then [] else (if Tied(s[0].1, e) then [s[0]] else []) + TiedWith(s[1..], e)
  }

  /** A stable rearrangement: every group of tied elements is as it was. */
  ghost predicate Stable<T>(before: seq<(T, Key)>, after: seq<(T, Key)>) {
    multiset(before) == multiset(after) && forall e :: TiedWith(before, e) == TiedWith(after, e)
  }

  /** How many elements of s come in order before x. */
  function CountBefore<T>(x: Key, s: seq<(T, Key)>): nat {
    if s == [] then 0 else (if After(x, s[0].1) then 1 else 0) + CountBefore(x, s[1..])
  }

  /** Pairs that are out of order. */
  function Inversions<T>(s: seq<(T, Key)>): nat {
    if s == [] then 0 else CountBefore(s[0].1, s[1..]) + Inversions(s[1..])
  }

  function Swapped<T>(s: seq<T>, i: nat): (r: seq<T>)
    requires i + 1 < |s|
    ensures |r| == |s|
  {
    s[..i] + [s[i + 1], s[i]] + s[i + 2..]
  }

  lemma SwappedTail<T>(s: seq<T>, i: nat)
    requires 0 < i && i + 1 < |s|
    ensures Swapped(s, i)[0] == s[0] && Swapped(s, i)[1..] == Swapped(s[1..], i - 1)
  {
    assert s[1..][i + 1..] == s[i + 2..];
  }

  lemma {:induction false} CountSwapped<T>(x: Key, s: seq<(T, Key)>, i: nat)
    requires i + 1 < |s|
    ensures CountBefore(x, Swapped(s, i)) == CountBefore(x, s)
  {
    if i == 0 {
      assert s[1..][1..] == s[2..] && Swapped(s, 0)[1..][1..] == s[2..] && Swapped(s, 0)[1..][0] == s[0];
    } else {
      SwappedTail(s, i);
      CountSwapped(x, s[1..], i - 1);
    }
  }

  /** Every swap of neighbours that are out of order removes one inversion. */
  lemma {:induction false} SwapRemovesInversion<T>(s: seq<(T, Key)>, i: nat)
    requires i + 1 < |s| && After(s[i].1, s[i + 1].1)
    ensures Inversions(Swapped(s, i)) == Inversions(s) - 1
  {
    if i == 0 {
      var r := Swapped(s, 0);
      AfterLaws(s[0].1, s[1].1, s[0].1);
      assert s[1..][1..] == s[2..] && r[1..][1..] == s[2..] && r[1..][0] == s[0] && r[0] == s[1];
    } else {
      SwappedTail(s, i);
      CountSwapped(s[0].1, s[1..], i - 1);
      SwapRemovesInversion(s[1..], i - 1);
    }
  }

  /** And leaves every group of tied elements alone. */
  lemma {:induction false} SwapKeepsTied<T>(s: seq<(T, Key)>, i: nat, e: Key)
    requires i + 1 < |s| && After(s[i].1, s[i + 1].1)
    ensures TiedWith(Swapped(s, i), e) == TiedWith(s, e)
  {
    if i == 0 {
      var r := Swapped(s, 0);
      assert s[1..][1..] == s[2..] && r[1..][1..] == s[2..] && r[1..][0] == s[0] && r[0] == s[1];
      if Tied(s[0].1, e) && Tied(s[1].1, e) {
        TiedAlike(s[0].1, s[1].1, e);
        assert false;
      }
    } else {
      SwappedTail(s, i);
      SwapKeepsTied(s[1..], i - 1, e);
    }
  }

  lemma SwapIsStable<T>(s: seq<(T, Key)>, i: nat)
    requires i + 1 < |s| && After(s[i].1, s[i + 1].1)
    ensures Stable(s, Swapped(s, i))
  {
    assert s == s[..i] + [s[i], s[i + 1]] + s[i + 2..];
    forall e ensures TiedWith(s, e) == TiedWith(Swapped(s, i), e) {
      SwapKeepsTied(s, i, e);
    }
  }

  predicate InOrderAt<T>(s: seq<(T, Key)>, k: nat) { k + 1 < |s| ==> !After(s[k].1, s[k + 1].1) }

  /** The first i elements are each in order with their successor. */
  ghost predicate InOrder<T>(s: seq<(T, Key)>, i: nat) { forall k: nat :: k < i ==> InOrderAt(s, k) }

  lemma InOrderStep<T>(s: seq<(T, Key)>, i: nat)
    requires InOrder(s, i) && InOrderAt(s, i)
    ensures InOrder(s, i + 1)
  {
  }

  lemma InOrderNone<T>(s: seq<(T, Key)>)
    ensures InOrder(s, 0)
  {
  }

  /** Neighbours in order make the whole in order. */
  lemma NeighboursSort<T>(s: seq<(T, Key)>, i: nat)
    requires InOrder(s, i) && i + 1 >= |s|
    ensures Sorted(s)
  {
    forall i, j | 0 <= i < j < |s| ensures !After(s[i].1, s[j].1) {
      NotAfterFar(s, i, j);
    }
  }

  lemma {:induction false} NotAfterFar<T>(s: seq<(T, Key)>, i: nat, j: nat)
    requires i < j < |s| && InOrder(s, |s| - 1)
    ensures !After(s[i].1, s[j].1)
    decreases j - i
  {
    assert InOrderAt(s, j - 1);
    if j > i + 1 {
      NotAfterFar(s, i, j - 1);
      AfterLaws(s[i].1, s[j - 1].1, s[j].1);
    }
  }

  /** There is only one stable way to sort: the order and the ties fix the whole list. */
  lemma {:induction false} StableSortUnique<T>(a: seq<(T, Key)>, b: seq<(T, Key)>)
    requires Sorted(a) && Sorted(b) && Stable(a, b)
    ensures a == b
  {
    assert |multiset(a)| == |a| && |multiset(b)| == |b|;
    if a != [] {
      LeastTied(a, b);
      LeastTied(b, a);
      var e := a[0].1;
      AfterLaws(e, e, e);
      assert TiedWith(a, e)[0] == a[0] && TiedWith(b, e)[0] == b[0];
      StableTails(a, b);
      StableSortUnique(a[1..], b[1..]);
    }
  }

  lemma StableTails<T>(a: seq<(T, Key)>, b: seq<(T, Key)>)
    requires Stable(a, b) && a != [] && b != [] && a[0] == b[0]
    ensures Stable(a[1..], b[1..])
  {
    assert a == [a[0]] + a[1..] && b == [b[0]] + b[1..];
    assert multiset(a[1..]) == multiset(a) - multiset{a[0]} == multiset(b[1..]);
    forall x ensures TiedWith(a[1..], x) == TiedWith(b[1..], x) {
      var first := if Tied(a[0].1, x) then [a[0]] else [];
      assert TiedWith(a[1..], x) == TiedWith(a, x)[|first|..] && TiedWith(b[1..], x) == TiedWith(b, x)[|first|..];
    }
  }

  lemma LeastTied<T>(a: seq<(T, Key)>, b: seq<(T, Key)>)
    requires Sorted(a) && multiset(a) == multiset(b) && a != [] && b != []
    ensures !After(a[0].1, b[0].1)
  {
    assert b[0] in multiset(b);
    assert b[0] in a;
    AfterLaws(a[0].1, a[0].1, a[0].1);
  }

  // ----- The list -----

  /** struct output_device, as far as the list goes; `kind` is its type, which decides its
      priority. */
  class Device {
    const id: nat
    const kind: nat
    const priority: int
    var name: string
    var next: Device?

    constructor (id: nat, kind: nat, priority: int, name: string)
      ensures this.id == id && this.kind == kind && this.priority == priority && this.name == name && next == null
    {
      this.id, this.kind, this.priority, this.name, next := id, kind, priority, name, null;
    }

    function Key(): Key
      reads this`name
    {
      SortKey(priority, name)
    }
  }

  type Items = seq<(Device, Key)>

  function At(items: Items, i: nat): Device? { if i < |items| then items[i].0 else null }

  ghost predicate Distinct(items: Items) {
    forall i, j :: 0 <= i < j < |items| ==> items[i].0 != items[j].0
  }

  ghost function Objects(items: Items): set<Device> { set i | 0 <= i < |items| :: items[i].0 }

  /** The list starting at first is items, in order, with their present keys. */
  ghost predicate Represents(first: Device?, items: Items)
    reads Objects(items)
  {
    first == At(items, 0) &&
    forall i :: 0 <= i < |items| ==> items[i].0.next == At(items, i + 1) && items[i].0.Key() == items[i].1
  }

  ghost predicate UniqueIds(items: Items) {
    forall i, j :: 0 <= i < j < |items| ==> items[i].0.id != items[j].0.id
  }

  class Outputs {
    var list: Device?
    ghost var items: Items

    /** What holds between operations on the list. */
    ghost predicate Valid()
      reads this, Objects(items)
    {
      Represents(list, items) && Distinct(items) && UniqueIds(items) && Sorted(items)
    }

    constructor ()
      ensures Valid() && items == []
    {
      list, items := null, [];
    }

    /** The search for an id that outputs_device_add begins with. */
    method Find(id: nat) returns (device: Device?, ghost at: nat)
      requires Represents(list, items)
      ensures at <= |items| && device == At(items, at)
      ensures if at < |items| then items[at].0.id == id else forall k :: 0 <= k < |items| ==> items[k].0.id != id
    {
      device, at := list, 0;
      while device != null && device.id != id
        invariant at <= |items| && device == At(items, at)
        invariant forall k :: 0 <= k < at ==> items[k].0.id != id
        decreases |items| - at
      {
        device, at := device.next, at + 1;
      }
    }

    /** outputs_device_remove, the list part: unlinks the device if it is in the list. */
    method Remove(remove: Device)
      requires Valid()
      modifies this, Objects(items)
      ensures Valid()
      ensures Objects(items) == old(Objects(items)) - {remove}
      ensures if remove in old(Objects(items))
              then exists i :: 0 <= i < |old(items)| && old(items)[i].0 == remove && items == Without(old(items), i)
              else items == old(items)
    {
      hide Sorted, UniqueIds, Without, Distinct, Objects;
      Neighbours();
      var device, prev: Device? := list, null;
      ghost var i := 0;
      while device != null && device != remove
        invariant i <= |items| && device == At(items, i) && prev == (if i == 0 then null else items[i - 1].0)
        invariant forall k :: 0 <= k < i ==> items[k].0 != remove
        decreases |items| - i
      {
        prev, device, i := device, device.next, i + 1;
      }
      if device == null {
        assert remove !in Objects(items) by {
          NotAnywhere(items, remove);
        }
        return;
      }
      WithoutKeeps(items, i);
      Unlink(remove, prev, i);
    }

    method Unlink(remove: Device, prev: Device?, ghost i: nat)
      requires Represents(list, items) && Distinct(items)
      requires i < |items| && remove == items[i].0 && prev == (if i == 0 then null else items[i - 1].0)
      modifies this, Objects(items)
      ensures Represents(list, items) && items == Without(old(items), i)
    {
      hide Without, Distinct, Objects, Represents;
      ghost var was := items;
      if i > 0 {
        InItems(items, i - 1);
      }
      Bypass(remove, prev, i);
      items := Without(items, i);
      Unlinked(list, was, i);
    }

    /** The one pointer that changes. */
    method Bypass(remove: Device, prev: Device?, ghost i: nat)
      requires Represents(list, items) && Distinct(items)
      requires i < |items| && remove == items[i].0 && prev == (if i == 0 then null else items[i - 1].0)
      modifies this`list, if prev == null then {} else {prev}
      ensures list == if i == 0 then At(items, 1) else At(items, 0)
      ensures forall m :: 0 <= m < |items| ==> items[m].0.next == NextWithout(items, i, m)
      ensures forall m :: 0 <= m < |items| ==> items[m].0.Key() == items[m].1
    {
      hide Distinct, Objects;
      Neighbours();
      if prev == null {
        list := remove.next;
      } else {
        OnlyAt(items, i - 1);
        prev.next := remove.next;
      }
    }

    /** Links a new device in front, as outputs_device_add does before it sorts. */
    method PushFront(add: Device)
      requires Valid() && add !in Objects(items) && forall k :: 0 <= k < |items| ==> items[k].0.id != add.id
      modifies this, add
      ensures Represents(list, items) && Distinct(items) && UniqueIds(items)
      ensures items == [(add, old(add.Key()))] + old(items)
      ensures Objects(items) == old(Objects(items)) + {add} && add.Key() == old(add.Key())
    {
      hide Sorted, UniqueIds, Distinct, Objects;
      Neighbours();
      PushedKeeps(items, add, add.Key());
      Link(add);
    }

    method Link(add: Device)
      requires Represents(list, items) && forall k :: 0 <= k < |items| ==> items[k].0 != add
      modifies this, add`next
      ensures Represents(list, items) && items == [(add, add.Key())] + old(items)
    {
      hide Objects;
      Neighbours();
      ghost var was := items;
      add.next := list;
      list := add;
      items := [(add, add.Key())] + items;
      assert list == At(items, 0) && add.next == At(items, 1);
      forall k | 0 < k < |items| ensures items[k].0.next == At(items, k + 1) && items[k].0.Key() == items[k].1 {
        assert items[k] == was[k - 1] && At(items, k + 1) == At(was, k);
      }
    }

    method Rename(device: Device, name: string, ghost at: nat)
      requires Valid() && at < |items| && device == items[at].0
      modifies this, device
      ensures Represents(list, items) && Distinct(items) && UniqueIds(items)
      ensures items == old(items)[at := (device, SortKey(device.priority, name))]
      ensures Objects(items) == old(Objects(items))
    {
      hide Sorted, UniqueIds, Distinct, Objects;
      Neighbours();
      OnlyAt(items, at);
      RenamedKeeps(items, at, SortKey(device.priority, name));
      ghost var was := items;
      device.name := name;
      items := items[at := (device, device.Key())];
      forall k | 0 <= k < |items| ensures items[k].0.next == At(items, k + 1) && items[k].0.Key() == items[k].1 {
        assert items[k].0 == was[k].0 && At(items, k + 1) == At(was, k + 1);
      }
    }

    /** Sorting keeps everything but the order. */
    method SortUnique()
      requires Represents(list, items) && Distinct(items) && UniqueIds(items)
      modifies this, Objects(items)
      ensures Valid() && Stable(old(items), items) && Objects(items) == old(Objects(items))
    {
      hide Stable, Distinct, UniqueIds, Objects;
      ghost var before := items;
      Sort();
      StableKeepsIds(before, items);
    }

    /** The list that outputs_device_add sorts, and the device it gives back: a device with a new
        id goes in front, so does one of another kind that replaces the one there; one of the
        same kind gives the one there its name. One of another kind whose priority comes later is
        ignored. */
    ghost function Added(add: Device, key: Key, before: Items): (Option<Device>, Items)
      requires UniqueIds(before)
    {
      if forall k :: 0 <= k < |before| ==> before[k].0.id != add.id then (Some(add), [(add, key)] + before)
      else
        var at :| 0 <= at < |before| && before[at].0.id == add.id;
        var existing := before[at].0;
        if existing.kind == add.kind
        then (Some(existing), before[at := (existing, SortKey(existing.priority, key.name))])
        else if existing.priority < add.priority then (None, before)
        else (Some(add), [(add, key)] + Without(before, at))
    }

    /** outputs_device_add, the list part. */
    method Add(add: Device) returns (device: Device?)
      requires Valid() && add !in Objects(items)
      modifies this, add, Objects(items)
      ensures Valid()
      ensures var (result, before) := Added(add, old(add.Key()), old(items));
              && device == (match result case None => null case Some(d) => d)
              && Stable(before, items)
    {
      hide Sorted, Stable, Distinct, UniqueIds, Objects, Added, Without;
      ghost var at;
      device, at := Find(add.id);
      if device == null {
        NewId(add, add.Key(), items);
        device := add;
        PushFront(add);
        SortUnique();
        return;
      }
      AddedExisting(add, add.Key(), items, at);
      InItems(items, at);
      if device.kind != add.kind {
        if device.priority < add.priority {
          StableReflexive(items);
          return null;
        }
        Supersede(add, device, at);
        device := add;
      } else {
        Rename(device, add.name, at);
      }
      SortUnique();
    }

    /** The device gives way to one of another kind with the same id. */
    method Supersede(add: Device, device: Device, ghost at: nat)
      requires Valid() && add !in Objects(items) && at < |items| && device == items[at].0 && device.id == add.id
      modifies this, add, Objects(items)
      ensures Represents(list, items) && Distinct(items) && UniqueIds(items)
      ensures items == [(add, old(add.Key()))] + Without(old(items), at)
      ensures Objects(items) == old(Objects(items)) - {device} + {add}
    {
      hide Sorted, Distinct, UniqueIds, Objects, Represents, Without;
      ghost var was := items;
      InItems(items, at);
      Remove(device);
      RemovedAt(was, at, items);
      PushFront(add);
    }

    lemma InItems(items: Items, at: nat)
      requires at < |items|
      ensures items[at].0 in Objects(items)
    {
    }

    lemma NewId(add: Device, key: Key, before: Items)
      requires UniqueIds(before) && forall k :: 0 <= k < |before| ==> before[k].0.id != add.id
      ensures Added(add, key, before) == (Some(add), [(add, key)] + before)
    {
    }

    lemma AddedExisting(add: Device, key: Key, before: Items, at: nat)
      requires UniqueIds(before) && at < |before| && before[at].0.id == add.id
      ensures var existing := before[at].0;
              Added(add, key, before) ==
                if existing.kind == add.kind
                then (Some(existing), before[at := (existing, SortKey(existing.priority, key.name))])
                else if existing.priority < add.priority then (None, before)
                else (Some(add), [(add, key)] + Without(before, at))
    {
    }

    lemma RemovedAt(before: Items, at: nat, after: Items)
      requires Distinct(before) && UniqueIds(before) && Sorted(before) && at < |before|
      requires exists i :: 0 <= i < |before| && before[i].0 == before[at].0 && after == Without(before, i)
      ensures after == Without(before, at) && forall k :: 0 <= k < |after| ==> after[k].0.id != before[at].0.id
    {
      var i :| 0 <= i < |before| && before[i].0 == before[at].0 && after == Without(before, i);
      assert i == at;
      WithoutKeeps(before, at);
    }

    /** device_list_sort. */
    method Sort()
      requires Represents(list, items) && Distinct(items)
      modifies this, Objects(items)
      ensures Represents(list, items) && Distinct(items)
      ensures Sorted(items) && InOrderOfNames(items) && Stable(old(items), items)
    {
      hide Stable, Sorted, Inversions, InOrderOfNames;
      var swaps := 1;
      StableReflexive(items);
      while swaps > 0
        invariant Represents(list, items) && Distinct(items) && Stable(old(items), items)
        invariant Objects(items) == old(Objects(items))
        invariant swaps >= 0 && (swaps == 0 ==> Sorted(items))
        decreases Inversions(items) + if swaps > 0 then 1 else 0
      {
        ghost var before := items;
        swaps := Pass();
        StableTransitive(old(items), before, items);
      }
      SortedIff(items);
    }

    /** One pass of the sort. A swap moves the device behind its neighbour, and the pass goes on
        with what comes after both. */
    method Pass() returns (swaps: nat)
      requires Represents(list, items) && Distinct(items)
      modifies this, Objects(items)
      ensures Represents(list, items) && Distinct(items) && Objects(items) == old(Objects(items))
      ensures Stable(old(items), items)
      ensures if swaps == 0 then items == old(items) && Sorted(items) else Inversions(items) < Inversions(old(items))
    {
      hide Stable, Sorted, Inversions, After, InOrder, InOrderAt, Distinct, Represents, Objects;
      var prev, device: Device? := null, list;
      ghost var i := 0;
      swaps := 0;
      StableReflexive(items);
      InOrderNone(items);
      At0();
      if items != [] {
        NextOf(0);
      }
      while device != null && device.next != null
        invariant Represents(list, items) && Distinct(items) && Objects(items) == old(Objects(items))
        invariant i <= |items| && device == At(items, i) && prev == (if i == 0 then null else items[i - 1].0)
        invariant device != null ==> device.next == At(items, i + 1)
        invariant Stable(old(items), items) && Inversions(items) + swaps == Inversions(old(items))
        invariant swaps == 0 ==> items == old(items) && InOrder(items, i)
        decreases |items| - i
      {
        ghost var before := items;
        var swapped := CompareAndSwap(prev, device, device.next, i);
        if swapped {
          StableTransitive(old(items), before, items);
          swaps := swaps + 1;
          i := i + 1;
        } else if swaps == 0 {
          InOrderStep(items, i);
        }
        NextOf(i);
        if i + 1 < |items| {
          NextOf(i + 1);
        }
        prev := device;
        device := device.next;
        i := i + 1;
      }
      if swaps == 0 {
        NeighboursSort(items, i);
      }
    }

    lemma At0()
      requires Represents(list, items)
      ensures list == At(items, 0)
    {
    }

    lemma NextOf(i: nat)
      requires Represents(list, items) && i < |items|
      ensures items[i].0.next == At(items, i + 1)
    {
    }

    lemma Neighbours()
      requires Represents(list, items)
      ensures list == At(items, 0) && forall i :: 0 <= i < |items| ==> items[i].0.next == At(items, i + 1)
      ensures forall i :: 0 <= i < |items| ==> items[i].0 in Objects(items)
    {
    }

    /** Body of the pass. */
    method CompareAndSwap(prev: Device?, device: Device, next: Device, ghost i: nat) returns (swapped: bool)
      requires Represents(list, items) && Distinct(items)
      requires i + 1 < |items| && device == items[i].0 && next == items[i + 1].0
      requires prev == (if i == 0 then null else items[i - 1].0)
      modifies this, Objects(items)
      ensures Represents(list, items) && Distinct(items) && Objects(items) == old(Objects(items))
      ensures if swapped then
                && Stable(old(items), items) && Inversions(items) + 1 == Inversions(old(items))
                && |items| == |old(items)| && items[i + 1].0 == device
              else items == old(items) && InOrderAt(items, i)
    {
      hide Stable, Inversions, Distinct;
      swapped := After(device.Key(), next.Key());
      if swapped {
        SwapRemovesInversion(items, i);
        SwapIsStable(items, i);
        SwapNodes(prev, device, next, i);
      }
    }

    /** The relinking of two neighbours. */
    method SwapNodes(prev: Device?, device: Device, next: Device, ghost i: nat)
      requires Represents(list, items) && Distinct(items)
      requires i + 1 < |items| && device == items[i].0 && next == items[i + 1].0
      requires prev == (if i == 0 then null else items[i - 1].0)
      modifies this, Objects(items)
      ensures Represents(list, items) && Distinct(items)
      ensures items == Swapped(old(items), i) && Objects(items) == old(Objects(items))
    {
      hide Swapped, Distinct, Objects, Represents;
      ghost var was := items;
      SwappedObjects(items, i);
      Rejoin(prev, device, next, i);
      items := Swapped(items, i);
      Rejoined(list, was, i);
    }

    /** The three pointers that change. */
    method Rejoin(prev: Device?, device: Device, next: Device, ghost i: nat)
      requires Represents(list, items) && Distinct(items)
      requires i + 1 < |items| && device == items[i].0 && next == items[i + 1].0
      requires prev == (if i == 0 then null else items[i - 1].0)
      modifies this`list, Objects(items)
      ensures list == if i == 0 then At(items, 1) else At(items, 0)
      ensures forall m :: 0 <= m < |items| ==> items[m].0.next == NextAfterSwap(items, i, m)
      ensures forall m :: 0 <= m < |items| ==> items[m].0.Key() == items[m].1
    {
      hide Distinct, Objects;
      Neighbours();
      OnlyAt(items, i);
      OnlyAt(items, i + 1);
      if i > 0 {
        OnlyAt(items, i - 1);
      }
      if device == list {
        list := next;
      }
      if prev != null {
        prev.next := next;
      }
      device.next := next.next;
      next.next := device;
    }
  }

  function Without(items: Items, i: nat): Items
    requires i < |items|
  {
    items[..i] + items[i + 1..]
  }

  lemma WithoutKeeps(items: Items, i: nat)
    requires Distinct(items) && UniqueIds(items) && Sorted(items) && i < |items|
    ensures var r := Without(items, i);
            && Distinct(r) && UniqueIds(r) && Sorted(r) && Objects(r) == Objects(items) - {items[i].0}
            && |r| == |items| - 1
            && (forall k :: 0 <= k < |r| ==> r[k] == if k < i then items[k] else items[k + 1])
            && (forall k :: 0 <= k < |r| ==> r[k].0.id != items[i].0.id)
  {
    var r := Without(items, i);
    forall d ensures d in Objects(r) <==> d in Objects(items) - {items[i].0} {
      if d in Objects(items) - {items[i].0} {
        var k :| 0 <= k < |items| && items[k].0 == d;
        assert r[if k < i then k else k - 1].0 == d;
      }
    }
  }

  lemma NotAnywhere(items: Items, d: Device)
    requires forall k :: 0 <= k < |items| ==> items[k].0 != d
    ensures d !in Objects(items)
  {
  }

  lemma WithoutLinks(items: Items, i: nat)
    requires i < |items|
    ensures var r := Without(items, i);
            |r| == |items| - 1 && forall k :: 0 <= k < |r| ==> r[k] == items[if k < i then k else k + 1]
  {
  }

  /** What follows the m-th node once node i is passed over. */
  function NextWithout(was: Items, i: nat, m: nat): Device? {
    if m + 1 == i then At(was, i + 1) else At(was, m + 1)
  }

  lemma Unlinked(first: Device?, was: Items, i: nat)
    requires i < |was| && first == (if i == 0 then At(was, 1) else At(was, 0))
    requires forall m :: 0 <= m < |was| ==> was[m].0.next == NextWithout(was, i, m)
    requires forall m :: 0 <= m < |was| ==> was[m].0.Key() == was[m].1
    ensures Represents(first, Without(was, i))
  {
    hide Without;
    WithoutLinks(was, i);
    var r := Without(was, i);
    forall k | 0 <= k < |r| ensures r[k].0.next == At(r, k + 1) && r[k].0.Key() == r[k].1 {
      var m := if k < i then k else k + 1;
      assert r[k] == was[m];
      assert At(r, k + 1) == At(was, if k + 1 < i then k + 1 else k + 2);
    }
  }

  /** What follows the m-th node once nodes i and i + 1 have changed places. */
  function NextAfterSwap(was: Items, i: nat, m: nat): Device?
    requires i + 1 < |was|
  {
    if m + 1 == i then was[i + 1].0 else if m == i + 1 then was[i].0 else At(was, if m == i then i + 2 else m + 1)
  }

  lemma Rejoined(first: Device?, was: Items, i: nat)
    requires i + 1 < |was| && first == (if i == 0 then At(was, 1) else At(was, 0))
    requires forall m :: 0 <= m < |was| ==> was[m].0.next == NextAfterSwap(was, i, m)
    requires forall m :: 0 <= m < |was| ==> was[m].0.Key() == was[m].1
    ensures Represents(first, Swapped(was, i))
  {
    hide Swapped;
    SwappedAt(was, i);
    var r := Swapped(was, i);
    forall k | 0 <= k < |r| ensures r[k].0.next == At(r, k + 1) && r[k].0.Key() == r[k].1 {
      var m := if k == i then i + 1 else if k == i + 1 then i else k;
      assert r[k] == was[m];
      assert k + 1 < |r| ==> r[k + 1] == was[if k + 1 == i then i + 1 else if k == i then i else k + 1];
    }
  }

  lemma SwappedAt(items: Items, i: nat)
    requires i + 1 < |items|
    ensures forall k :: 0 <= k < |items| ==>
              Swapped(items, i)[k] == if k == i then items[i + 1] else if k == i + 1 then items[i] else items[k]
  {
  }

  lemma PushedKeeps(items: Items, add: Device, key: Key)
    requires Distinct(items) && UniqueIds(items)
    requires add !in Objects(items) && forall k :: 0 <= k < |items| ==> items[k].0.id != add.id
    ensures var r := [(add, key)] + items;
            && Distinct(r) && UniqueIds(r) && Objects(r) == Objects(items) + {add}
            && (forall k :: 0 <= k < |items| ==> items[k].0 != add)
  {
    var r := [(add, key)] + items;
    assert forall k :: 0 <= k < |items| ==> items[k].0 in Objects(items);
    forall d ensures d in Objects(r) <==> d in Objects(items) + {add} {
      if d in Objects(items) {
        var k :| 0 <= k < |items| && items[k].0 == d;
        assert r[k + 1].0 == d;
      }
      assert r[0].0 == add;
    }
  }

  lemma RenamedKeeps(items: Items, at: nat, key: Key)
    requires Distinct(items) && UniqueIds(items) && at < |items|
    ensures var r := items[at := (items[at].0, key)];
            Distinct(r) && UniqueIds(r) && Objects(r) == Objects(items)
  {
    var r := items[at := (items[at].0, key)];
    assert forall k :: 0 <= k < |items| ==> r[k].0 == items[k].0;
  }

  /** A rearrangement keeps the objects, and the ids apart. */
  lemma StableKeepsIds(before: Items, after: Items)
    requires Stable(before, after) && UniqueIds(before) && Distinct(after)
    ensures UniqueIds(after) && Objects(after) == Objects(before)
  {
    forall i, j | 0 <= i < j < |after| ensures after[i].0.id != after[j].0.id {
      assert after[i] in multiset(after) && after[j] in multiset(after);
      assert after[i] in before && after[j] in before;
      var a :| 0 <= a < |before| && before[a] == after[i];
      var b :| 0 <= b < |before| && before[b] == after[j];
      if b < a {
        assert before[b].0.id != before[a].0.id;
      }
    }
    forall d ensures d in Objects(after) <==> d in Objects(before) {
      if d in Objects(after) {
        var k :| 0 <= k < |after| && after[k].0 == d;
        assert after[k] in multiset(after);
        assert after[k] in before;
        var m :| 0 <= m < |before| && before[m] == after[k];
        assert before[m].0 == d;
      }
      if d in Objects(before) {
        var k :| 0 <= k < |before| && before[k].0 == d;
        assert before[k] in multiset(before);
        assert before[k] in after;
        var m :| 0 <= m < |after| && after[m] == before[k];
        assert after[m].0 == d;
      }
    }
  }

  lemma OnlyAt(items: Items, i: nat)
    requires Distinct(items) && i < |items|
    ensures forall k :: 0 <= k < |items| && k != i ==> items[k].0 != items[i].0
  {
  }

  lemma SwappedObjects(items: Items, i: nat)
    requires i + 1 < |items| && Distinct(items)
    ensures Objects(Swapped(items, i)) == Objects(items) && Distinct(Swapped(items, i))
  {
    var r := Swapped(items, i);
    SwappedAt(items, i);
    forall d ensures d in Objects(r) <==> d in Objects(items) {
      if d in Objects(items) {
        var k :| 0 <= k < |items| && items[k].0 == d;
        assert r[if k == i then i + 1 else if k == i + 1 then i else k].0 == d;
      }
    }
  }

  lemma StableReflexive<T>(s: seq<(T, Key)>)
    ensures Stable(s, s)
  {
  }

  lemma StableTransitive<T>(a: seq<(T, Key)>, b: seq<(T, Key)>, c: seq<(T, Key)>)
    requires Stable(a, b) && Stable(b, c)
    ensures Stable(a, c)
  {
  }
}
