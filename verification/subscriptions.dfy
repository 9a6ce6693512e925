/** The table of src/outputs.c that counts who wants which audio quality. */
module Subscriptions {
  import opened Words
  import opened MediaQuality

  const OUTPUTS_MAX_QUALITY_SUBSCRIPTIONS := 5

  /** An entry; `encoder` is its encoding context once one has been made. */
  datatype Subscription = Subscription(count: nat, quality: Quality, encoder: Option<nat>)

  const BLANK := Subscription(0, Quality(0, 0, 0, 0), None)

  /** One quality wanted so many times. */
  ghost function Copies(s: Subscription): (m: multiset<Quality>)
    ensures forall q :: m[q] == if q == s.quality then s.count else 0
  {
    multiset{}[s.quality := s.count]
  }

  /** How often each quality is wanted, by the entries of the table. */
  ghost function Wanted(entries: seq<Subscription>): multiset<Quality> {
    if entries == [] then multiset{}
    else
      Wanted(entries[..|entries| - 1]) + Copies(entries[|entries| - 1])
  }

  ghost predicate Distinct(entries: seq<Subscription>) {
    forall i, j :: 0 <= i < j < |entries| ==> entries[i].quality != entries[j].quality
  }

  predicate InUse(entries: seq<Subscription>) { forall i :: 0 <= i < |entries| ==> entries[i].count > 0 }

  lemma {:induction false} WantedIff(entries: seq<Subscription>, q: Quality)
    requires InUse(entries)
    ensures q in Wanted(entries) <==> exists i :: 0 <= i < |entries| && entries[i].quality == q
  {
    if entries != [] {
      var most := entries[..|entries| - 1];
      WantedIff(most, q);
      if i :| 0 <= i < |most| && most[i].quality == q {
        assert entries[i].quality == q;
      }
    }
  }

  /** The count of an entry is the exact number of subscribers. */
  lemma {:induction false} CountIsExact(entries: seq<Subscription>, i: nat)
    requires InUse(entries) && Distinct(entries) && i < |entries|
    ensures Wanted(entries)[entries[i].quality] == entries[i].count
  {
    var most := entries[..|entries| - 1];
    if i < |most| {
      CountIsExact(most, i);
      assert entries[i].quality != entries[|most|].quality;
    } else {
      WantedIff(most, entries[i].quality);
    }
  }

  /** The number of distinct qualities is the number of entries. */
  lemma {:induction false} EntriesAreDistinctQualities(entries: seq<Subscription>)
    requires InUse(entries) && Distinct(entries)
    ensures |Qualities(Wanted(entries))| == |entries|
  {
    if entries != [] {
      var most, q := entries[..|entries| - 1], entries[|entries| - 1].quality;
      EntriesAreDistinctQualities(most);
      WantedIff(most, q);
      assert Qualities(Wanted(entries)) == Qualities(Wanted(most)) + {q};
    }
  }

  ghost function Qualities(m: multiset<Quality>): set<Quality> { set q | q in m }

  lemma Reorder<T>(a: multiset<T>, b: multiset<T>, c: multiset<T>)
    ensures a + b + c == a + c + b
  {
  }

  /** Changing one entry changes the multiset by that much. */
  lemma {:induction false} WantedUpdate(entries: seq<Subscription>, i: nat, s: Subscription)
    requires i < |entries|
    ensures Wanted(entries[i := s]) + Copies(entries[i]) == Wanted(entries) + Copies(s)
  {
    hide Copies;
    var most, last := entries[..|entries| - 1], entries[|entries| - 1];
    if i < |most| {
      WantedUpdate(most, i, s);
      assert entries[i := s][..|most|] == most[i := s];
      Reorder(Wanted(most[i := s]), Copies(last), Copies(entries[i]));
      Reorder(Wanted(most), Copies(last), Copies(s));
    } else {
      assert entries[i := s][..|most|] == most;
    }
  }

  /** So does leaving an entry out. */
  lemma {:induction false} WantedWithout(entries: seq<Subscription>, i: nat)
    requires i < |entries|
    ensures Wanted(entries[..i] + entries[i + 1..]) + Copies(entries[i]) == Wanted(entries)
  {
    hide Copies, Wanted;
    var most, last := entries[..|entries| - 1], entries[|entries| - 1];
    var r := entries[..i] + entries[i + 1..];
    WantedLast(entries);
    if i < |most| {
      WantedWithout(most, i);
      WantedLast(r);
      var q := most[..i] + most[i + 1..];
      assert r[..|r| - 1] == q && r[|r| - 1] == last;
      Reorder(Wanted(q), Copies(last), Copies(entries[i]));
    } else {
      assert r == most;
    }
  }

  lemma WantedLast(entries: seq<Subscription>)
    requires entries != []
    ensures Wanted(entries) == Wanted(entries[..|entries| - 1]) + Copies(entries[|entries| - 1])
  {
  }

  /** One more or one less at entry i is one more or one less in all. */
  lemma CountedOnce(entries: seq<Subscription>, i: nat, s: Subscription)
    requires i < |entries| && s.quality == entries[i].quality
    ensures s.count == entries[i].count + 1 ==> Wanted(entries[i := s]) == Wanted(entries) + multiset{s.quality}
    ensures s.count == entries[i].count - 1 ==> Wanted(entries[i := s]) == Wanted(entries) - multiset{s.quality}
  {
    hide Wanted;
    WantedUpdate(entries, i, s);
    var before, after, one := Wanted(entries), Wanted(entries[i := s]), multiset{s.quality};
    if s.count == entries[i].count + 1 {
      assert Copies(s) == Copies(entries[i]) + one;
      Cancel(after, before + one, Copies(entries[i]));
    } else if s.count == entries[i].count - 1 {
      assert Copies(entries[i]) == Copies(s) + one;
      Cancel(after + one, before, Copies(s));
      assert after == after + one - one;
    }
  }

  lemma Cancel(a: multiset<Quality>, b: multiset<Quality>, c: multiset<Quality>)
    requires a + c == b + c
    ensures a == b
  {
    assert a == a + c - c && b == b + c - c;
  }

  /** Leaving out an entry that counts one is one less. */
  lemma LastSubscriber(entries: seq<Subscription>, i: nat)
    requires i < |entries| && entries[i].count == 1
    ensures Wanted(entries[..i] + entries[i + 1..]) == Wanted(entries) - multiset{entries[i].quality}
  {
    hide Wanted;
    WantedWithout(entries, i);
    assert Copies(entries[i]) == multiset{entries[i].quality};
  }

  lemma CountStays(entries: seq<Subscription>, i: nat, s: Subscription)
    requires i < |entries| && s.quality == entries[i].quality && s.count > 0 && InUse(entries) && Distinct(entries)
    ensures InUse(entries[i := s]) && Distinct(entries[i := s])
  {
  }

  lemma EntryAdded(entries: seq<Subscription>, quality: Quality)
    requires InUse(entries) && Distinct(entries) && quality !in Wanted(entries)
    ensures var more := entries + [Subscription(1, quality, None)];
            InUse(more) && Distinct(more) && Wanted(more) == Wanted(entries) + multiset{quality}
  {
    var s := Subscription(1, quality, None);
    WantedIff(entries, quality);
    assert (entries + [s])[..|entries|] == entries;
    assert Copies(s) == multiset{quality};
  }

  /** The encoder of the entry for a quality. */
  ghost function Serving(entries: seq<Subscription>, q: Quality): Option<nat> {
    if entries == [] then None
    else if entries[|entries| - 1].quality == q then entries[|entries| - 1].encoder
    else Serving(entries[..|entries| - 1], q)
  }

  lemma {:induction false} ServingAt(entries: seq<Subscription>, i: nat)
    requires Distinct(entries) && i < |entries|
    ensures Serving(entries, entries[i].quality) == entries[i].encoder
  {
    if i < |entries| - 1 {
      ServingAt(entries[..|entries| - 1], i);
    }
  }

  /** What Unsubscribe needs to know of the entry it found. */
  lemma EntryCounts(entries: seq<Subscription>, i: nat)
    requires InUse(entries) && Distinct(entries) && i < |entries|
    ensures Wanted(entries)[entries[i].quality] == entries[i].count > 0
    ensures Serving(entries, entries[i].quality) == entries[i].encoder
  {
    CountIsExact(entries, i);
    ServingAt(entries, i);
  }

  lemma {:induction false} ServingUpdate(entries: seq<Subscription>, i: nat, s: Subscription, q: Quality)
    requires i < |entries| && s.quality == entries[i].quality && s.encoder == entries[i].encoder
    ensures Serving(entries[i := s], q) == Serving(entries, q)
  {
    var most := entries[..|entries| - 1];
    if i < |most| {
      ServingUpdate(most, i, s, q);
      assert entries[i := s][..|most|] == most[i := s];
    } else {
      assert entries[i := s][..|most|] == most;
    }
  }

  lemma ServingStays(entries: seq<Subscription>, i: nat, s: Subscription)
    requires i < |entries| && s.quality == entries[i].quality && s.encoder == entries[i].encoder
    ensures forall q :: Serving(entries[i := s], q) == Serving(entries, q)
  {
    forall q ensures Serving(entries[i := s], q) == Serving(entries, q) {
      ServingUpdate(entries, i, s, q);
    }
  }

  lemma {:induction false} ServingOthers(entries: seq<Subscription>, i: nat, q: Quality)
    requires i < |entries| && q != entries[i].quality
    ensures Serving(entries[..i] + entries[i + 1..], q) == Serving(entries, q)
  {
    var most, last := entries[..|entries| - 1], entries[|entries| - 1];
    var r := entries[..i] + entries[i + 1..];
    if i < |most| {
      ServingOthers(most, i, q);
      assert r[..|r| - 1] == most[..i] + most[i + 1..] && r[|r| - 1] == last;
    } else {
      assert r == most;
    }
  }

  lemma {:induction false} ServingNone(entries: seq<Subscription>, q: Quality)
    requires forall i :: 0 <= i < |entries| ==> entries[i].quality != q
    ensures Serving(entries, q) == None
  {
    if entries != [] {
      ServingNone(entries[..|entries| - 1], q);
    }
  }

  lemma ServingWithout(entries: seq<Subscription>, i: nat)
    requires i < |entries| && Distinct(entries)
    ensures forall q :: Serving(entries[..i] + entries[i + 1..], q)
                        == if q == entries[i].quality then None else Serving(entries, q)
  {
    var r := entries[..i] + entries[i + 1..];
    forall q ensures Serving(r, q) == if q == entries[i].quality then None else Serving(entries, q) {
      if q == entries[i].quality {
        ServingNone(r, q);
      } else {
        ServingOthers(entries, i, q);
      }
    }
  }

  lemma ServingAdded(entries: seq<Subscription>, quality: Quality)
    requires InUse(entries) && quality !in Wanted(entries)
    ensures forall q :: Serving(entries + [Subscription(1, quality, None)], q) == Serving(entries, q)
  {
    var more := entries + [Subscription(1, quality, None)];
    assert more[..|entries|] == entries;
    WantedIff(entries, quality);
    ServingNone(entries, quality);
  }

  class Outputs {
    const subscriptions: array<Subscription>
    var gotNewSubscription: bool

    /** How many entries are live. */
    ghost var live: nat

    /** Live entries come first, with distinct qualities; all behind them is blank, and so always
        the last. */
    ghost predicate Valid()
      reads this, subscriptions
    {
      && subscriptions.Length == OUTPUTS_MAX_QUALITY_SUBSCRIPTIONS + 1
      && live <= OUTPUTS_MAX_QUALITY_SUBSCRIPTIONS
      && InUse(subscriptions[..live]) && Distinct(subscriptions[..live])
      && forall i :: live <= i < subscriptions.Length ==> subscriptions[i] == BLANK
    }

    ghost function Subscribers(): multiset<Quality>
      requires Valid()
      reads this, subscriptions
    {
      Wanted(subscriptions[..live])
    }

    /** Which encoder serves a quality, if any. */
    ghost function EncoderFor(quality: Quality): Option<nat>
      requires Valid()
      reads this, subscriptions
    {
      Serving(subscriptions[..live], quality)
    }

    constructor ()
      ensures Valid() && Subscribers() == multiset{} && fresh(subscriptions)
    {
      subscriptions := new Subscription[OUTPUTS_MAX_QUALITY_SUBSCRIPTIONS + 1](_ => BLANK);
      gotNewSubscription, live := false, 0;
    }

    /** The scan that both operations make; it ends at a blank entry at the latest. */
    method Find(quality: Quality) returns (i: nat)
      requires Valid()
      ensures i <= live
      ensures if i < live then subscriptions[i].quality == quality else quality !in Subscribers()
      ensures if i < live then subscriptions[i].count > 0 else subscriptions[i] == BLANK
    {
      i := 0;
      while subscriptions[i].count > 0 && !QualityIsEqual(quality, subscriptions[i].quality)
        invariant i <= live
        invariant forall k :: 0 <= k < i ==> subscriptions[k].quality != quality
        decreases live - i
      {
        assert subscriptions[..live][i] == subscriptions[i];
        i := i + 1;
      }
      if i < live {
        assert subscriptions[..live][i] == subscriptions[i];
      }
      WantedIff(subscriptions[..live], quality);
    }

    /** outputs_quality_subscribe: refused exactly for a sixth quality. */
    method Subscribe(quality: Quality) returns (ret: int)
      requires Valid()
      modifies this, subscriptions
      ensures Valid()
      ensures ret == 0 || ret == -1
      ensures ret == 0 <==>
                || quality in old(Subscribers())
                || |Qualities(old(Subscribers()))| < 5
      ensures Subscribers() == old(Subscribers()) + if ret == 0 then multiset{quality} else multiset{}
      ensures gotNewSubscription == (old(gotNewSubscription) || (ret == 0 && quality !in old(Subscribers())))
      ensures forall q :: EncoderFor(q) == old(EncoderFor(q))
    {
      hide Wanted, InUse, Distinct, Qualities, Serving;
      var i := Find(quality);
      ghost var was := subscriptions[..live];
      EntriesAreDistinctQualities(was);
      WantedIff(was, quality);
      if subscriptions[i].count > 0 {
        assert was[i].quality == quality;
        CountedOnce(was, i, was[i].(count := was[i].count + 1));
        CountStays(was, i, was[i].(count := was[i].count + 1));
        ServingStays(was, i, was[i].(count := was[i].count + 1));
        subscriptions[i] := subscriptions[i].(count := subscriptions[i].count + 1);
        assert subscriptions[..live] == was[i := was[i].(count := was[i].count + 1)];
        return 0;
      }
      if i >= subscriptions.Length - 1 {
        return -1;
      }
      EntryAdded(was, quality);
      ServingAdded(was, quality);
      subscriptions[i] := subscriptions[i].(quality := quality, count := subscriptions[i].count + 1);
      live := live + 1;
      assert subscriptions[..live] == was + [Subscription(1, quality, None)];
      gotNewSubscription := true;
      ret := 0;
    }

    /** encoding_reset, once the input has been set up: every subscription's encoder is released
        and, unless the input has its quality already, a new one made if that can be done. */
    method EncodingReset(input: Quality, setup: Quality -> Option<nat>) returns (released: multiset<nat>)
      requires Valid()
      modifies subscriptions
      ensures Valid() && Subscribers() == old(Subscribers())
      ensures released == old(Encoders(subscriptions[..]))
      ensures forall k :: 0 <= k < live ==>
                subscriptions[k].encoder
                == if subscriptions[k].quality == input then None else setup(subscriptions[k].quality)
    {
      hide Wanted, InUse, Distinct, Encoders;
      ghost var table := subscriptions[..];
      released := multiset{};
      EncodersNone(table);
      var i := 0;
      while subscriptions[i].count > 0
        invariant i <= live && Valid() && Subscribers() == Wanted(table[..live])
        invariant released == Encoders(table[..i])
        invariant forall k :: i <= k < subscriptions.Length ==> subscriptions[k] == table[k]
        invariant forall k :: 0 <= k < i ==>
                    subscriptions[k].encoder
                    == if subscriptions[k].quality == input then None else setup(subscriptions[k].quality)
        decreases live - i
      {
        ghost var was := subscriptions[..live];
        var s := subscriptions[i];
        EncodersNext(table, i);
        released := released + EncoderOf(s);
        var encoder := if QualityIsEqual(input, s.quality) then None else setup(s.quality);
        EncoderChanged(was, i, encoder);
        subscriptions[i] := s.(encoder := encoder);
        assert subscriptions[..live] == was[i := s.(encoder := encoder)];
        i := i + 1;
      }
      AtEnd(subscriptions[..live], i);
      EncodersBlank(table, i);
    }

    /** outputs_quality_unsubscribe; the encoder of a quality nobody wants any more is released. */
    method Unsubscribe(quality: Quality) returns (released: Option<nat>)
      requires Valid()
      modifies this, subscriptions
      ensures Valid() && gotNewSubscription == old(gotNewSubscription)
      ensures Subscribers() == old(Subscribers()) - multiset{quality}
      ensures released == if old(Subscribers())[quality] == 1 then old(EncoderFor(quality)) else None
      ensures forall q :: EncoderFor(q)
                          == if q == quality && old(Subscribers())[q] == 1 then None else old(EncoderFor(q))
      ensures Encoders(subscriptions[..])
              == old(Encoders(subscriptions[..])) - if released.Some? then multiset{released.value} else multiset{}
    {
      hide Wanted, Encoders, Serving, InUse, Distinct;
      released := None;
      var i := Find(quality);
      ghost var was := subscriptions[..live];
      if subscriptions[i].count == 0 {
        return;
      }
      EntryCounts(was, i);
      if subscriptions[i].count > 1 {
        CountDown(i);
      } else {
        released := subscriptions[i].encoder;
        Drop(i);
      }
    }

    /** One subscriber less, of several. */
    method CountDown(i: nat)
      requires Valid() && i < live && subscriptions[i].count > 1
      modifies subscriptions
      ensures Valid() && Subscribers() == old(Subscribers()) - multiset{old(subscriptions[i]).quality}
      ensures forall q :: EncoderFor(q) == old(EncoderFor(q))
      ensures Encoders(subscriptions[..]) == old(Encoders(subscriptions[..]))
    {
      hide Wanted, Encoders, Serving, InUse, Distinct;
      ghost var was, table := subscriptions[..live], subscriptions[..];
      var less := subscriptions[i].(count := subscriptions[i].count - 1);
      CountedOnce(was, i, less);
      CountStays(was, i, less);
      ServingStays(was, i, less);
      EncodersUpdate(table, i, less);
      subscriptions[i] := less;
      assert subscriptions[..] == table[i := less] && subscriptions[..live] == was[i := less];
    }

    /** The last subscriber of a quality is gone, and the entry with it. */
    method Drop(i: nat)
      requires Valid() && i < live && subscriptions[i].count == 1
      modifies this, subscriptions
      ensures Valid() && gotNewSubscription == old(gotNewSubscription)
      ensures Subscribers() == old(Subscribers()) - multiset{old(subscriptions[i]).quality}
      ensures forall q :: EncoderFor(q) == if q == old(subscriptions[i]).quality then None else old(EncoderFor(q))
      ensures Encoders(subscriptions[..]) == old(Encoders(subscriptions[..])) - EncoderOf(old(subscriptions[i]))
    {
      hide Wanted, Encoders, Serving, InUse, Distinct, EncoderOf;
      ghost var was, table := subscriptions[..live], subscriptions[..];
      LastSubscriber(was, i);
      ServingWithout(was, i);
      EncodersWithout(table, i);
      EncodersThenBlank(table[..i] + table[i + 1..]);
      subscriptions[i] := subscriptions[i].(count := 0);
      assert subscriptions[..] == table[i := subscriptions[i]];
      Shift(i, table);
      assert table[..old(live)] == was;
      assert subscriptions[..live] == was[..i] + was[i + 1..];
      forall q ensures EncoderFor(q) == if q == was[i].quality then None else old(EncoderFor(q)) {
        assert EncoderFor(q) == Serving(was[..i] + was[i + 1..], q) && old(EncoderFor(q)) == Serving(was, q);
      }
    }

    /** The loop that closes the gap. */
    method Shift(i: nat, ghost table: seq<Subscription>)
      requires i < live <= OUTPUTS_MAX_QUALITY_SUBSCRIPTIONS
      requires subscriptions.Length == OUTPUTS_MAX_QUALITY_SUBSCRIPTIONS + 1
      requires |table| == subscriptions.Length && subscriptions[..] == table[i := subscriptions[i]]
      requires InUse(table[..live]) && Distinct(table[..live])
      requires forall k :: live <= k < |table| ==> table[k] == BLANK
      modifies this`live, subscriptions
      ensures Valid() && live == old(live) - 1
      ensures subscriptions[..live] == table[..live + 1][..i] + table[..live + 1][i + 1..]
      ensures subscriptions[..] == table[..i] + table[i + 1..] + [BLANK]
    {
      var j := i;
      while j < subscriptions.Length - 1
        invariant i <= j <= subscriptions.Length - 1 && live == old(live)
        invariant forall k :: 0 <= k < i ==> subscriptions[k] == table[k]
        invariant forall k :: i <= k < j ==> subscriptions[k] == table[k + 1]
        invariant forall k :: j < k < subscriptions.Length ==> subscriptions[k] == table[k]
        invariant j == subscriptions.Length - 1 ==> subscriptions[j] == BLANK
      {
        subscriptions[j] := subscriptions[j + 1];
        j := j + 1;
      }
      Shifted(subscriptions[..], table, i, live);
      live := live - 1;
    }
  }

  lemma Shifted(now: seq<Subscription>, table: seq<Subscription>, i: nat, live: nat)
    requires |now| == |table| && i < live < |table|
    requires forall k :: 0 <= k < i ==> now[k] == table[k]
    requires forall k :: i <= k < |now| - 1 ==> now[k] == table[k + 1]
    requires now[|now| - 1] == BLANK
    requires forall k :: live <= k < |table| ==> table[k] == BLANK
    requires InUse(table[..live]) && Distinct(table[..live])
    ensures now == table[..i] + table[i + 1..] + [BLANK]
    ensures now[..live - 1] == table[..live][..i] + table[..live][i + 1..]
    ensures InUse(now[..live - 1]) && Distinct(now[..live - 1])
    ensures forall k :: live - 1 <= k < |now| ==> now[k] == BLANK
  {
    var t := table[..live];
    assert forall k :: 0 <= k < live - 1 ==> now[k] == t[if k < i then k else k + 1];
  }

  /** The encoding contexts the table holds. */
  ghost function Encoders(entries: seq<Subscription>): multiset<nat> {
    if entries == [] then multiset{}
    else Encoders(entries[..|entries| - 1]) + EncoderOf(entries[|entries| - 1])
  }

  function EncoderOf(s: Subscription): multiset<nat> {
    if s.encoder.Some? then multiset{s.encoder.value} else multiset{}
  }

  lemma EncodersNone(entries: seq<Subscription>)
    ensures Encoders(entries[..0]) == multiset{}
  {
  }

  lemma EncodersNext(entries: seq<Subscription>, i: nat)
    requires i < |entries|
    ensures Encoders(entries[..i + 1]) == Encoders(entries[..i]) + EncoderOf(entries[i])
  {
    assert entries[..i + 1][..i] == entries[..i];
  }

  /** Blank entries hold no encoder. */
  lemma {:induction false} EncodersBlank(entries: seq<Subscription>, i: nat)
    requires i <= |entries| && forall k :: i <= k < |entries| ==> entries[k] == BLANK
    ensures Encoders(entries[..i]) == Encoders(entries)
    decreases |entries| - i
  {
    if i < |entries| {
      EncodersNext(entries, i);
      EncodersBlank(entries, i + 1);
    } else {
      assert entries[..i] == entries;
    }
  }

  /** An encoder is no part of what the entry counts. */
  lemma EncoderChanged(entries: seq<Subscription>, i: nat, encoder: Option<nat>)
    requires i < |entries| && InUse(entries) && Distinct(entries)
    ensures var more := entries[i := entries[i].(encoder := encoder)];
            entries[i].count > 0 && InUse(more) && Distinct(more) && Wanted(more) == Wanted(entries)
  {
    var s := entries[i].(encoder := encoder);
    WantedUpdate(entries, i, s);
    Cancel(Wanted(entries[i := s]), Wanted(entries), Copies(s));
  }

  lemma AtEnd(entries: seq<Subscription>, i: nat)
    requires InUse(entries) && i <= |entries|
    ensures i < |entries| ==> entries[i].count > 0
  {
  }

  lemma {:induction false} EncodersUpdate(entries: seq<Subscription>, i: nat, s: Subscription)
    requires i < |entries| && s.encoder == entries[i].encoder
    ensures Encoders(entries[i := s]) == Encoders(entries)
  {
    hide EncoderOf;
    var most := entries[..|entries| - 1];
    SameEncoder(s, entries[i]);
    if i < |most| {
      EncodersUpdate(most, i, s);
      assert entries[i := s][..|most|] == most[i := s];
    } else {
      assert entries[i := s][..|most|] == most;
    }
  }

  lemma SameEncoder(s: Subscription, t: Subscription)
    requires s.encoder == t.encoder
    ensures EncoderOf(s) == EncoderOf(t)
  {
  }

  lemma {:induction false} EncodersWithout(entries: seq<Subscription>, i: nat)
    requires i < |entries|
    ensures Encoders(entries[..i] + entries[i + 1..]) + EncoderOf(entries[i]) == Encoders(entries)
  {
    hide EncoderOf;
    var most, last := entries[..|entries| - 1], entries[|entries| - 1];
    var r := entries[..i] + entries[i + 1..];
    if i < |most| {
      EncodersWithout(most, i);
      var q := most[..i] + most[i + 1..];
      assert r[..|r| - 1] == q && r[|r| - 1] == last;
      Reorder(Encoders(q), EncoderOf(last), EncoderOf(entries[i]));
    } else {
      assert r == most;
    }
  }

  lemma EncodersThenBlank(entries: seq<Subscription>)
    ensures Encoders(entries + [BLANK]) == Encoders(entries)
  {
    assert (entries + [BLANK])[..|entries|] == entries;
  }
}
