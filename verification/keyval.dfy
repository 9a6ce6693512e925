/** The key/value list of src/misc.c: a linked list whose names differ even when case is ignored,
    and the sort that links every node to its successor in name order. */
module KeyVal {
  import opened Words
  import opened RtspText

  /** strcmp(a, b) < 0. */
  predicate Less(a: string, b: string) {
    b != "" && (a == "" || a[0] < b[0] || (a[0] == b[0] && Less(a[1..], b[1..])))
  }

  lemma {:induction false} LessTotal(a: string, b: string)
    ensures Less(a, b) || Less(b, a) || a == b
    ensures !(Less(a, b) && Less(b, a)) && !Less(a, a)
  {
    if a != "" && b != "" {
      LessTotal(a[1..], b[1..]);
      assert a == [a[0]] + a[1..] && b == [b[0]] + b[1..];
    }
    if a != "" {
      LessTotal(a[1..], a[1..]);
    }
  }

  lemma {:induction false} LessTransitive(a: string, b: string, c: string)
    requires Less(a, b) && Less(b, c)
    ensures Less(a, c)
  {
    if a != "" && a[0] == b[0] == c[0] {
      LessTransitive(a[1..], b[1..], c[1..]);
    }
  }

  /** The first place where they differ decides, or the shorter one is less. */
  predicate LessAt(a: string, b: string, k: nat) {
    k <= |a| && k < |b| && a[..k] == b[..k] && (k == |a| || a[k] < b[k])
  }

  lemma {:induction false} LessHasPlace(a: string, b: string) returns (k: nat)
    requires Less(a, b)
    ensures LessAt(a, b, k)
  {
    k := 0;
    if a != "" && a[0] == b[0] {
      var i := LessHasPlace(a[1..], b[1..]);
      k := i + 1;
      assert a[..k] == [a[0]] + a[1..][..i] && b[..k] == [b[0]] + b[1..][..i];
    }
  }

  lemma {:induction false} PlaceIsLess(a: string, b: string, k: nat)
    requires LessAt(a, b, k)
    ensures Less(a, b)
  {
    if k > 0 {
      assert a[..k][0] == b[..k][0] && a[..k][1..] == a[1..][..k - 1] && b[..k][1..] == b[1..][..k - 1];
      PlaceIsLess(a[1..], b[1..], k - 1);
    }
  }

  lemma LessIff(a: string, b: string)
    ensures Less(a, b) <==> exists k: nat :: LessAt(a, b, k)
  {
    if Less(a, b) {
      var k := LessHasPlace(a, b);
    }
    forall k: nat | LessAt(a, b, k) ensures Less(a, b) {
      PlaceIsLess(a, b, k);
    }
  }

  /** struct onekeyval. */
  class Node {
    const name: string
    const value: string
    var next: Node?
    var sort: Node?

    constructor (name: string, value: string)
      ensures this.name == name && this.value == value && next == null
    {
      this.name, this.value, next, sort := name, value, null, null;
    }
  }

  function At(nodes: seq<Node>, i: nat): Node? { if i < |nodes| then nodes[i] else null }

  /** The nodes from place `from` on are linked in order, starting at first. */
  ghost predicate Linked(nodes: seq<Node>, from: nat, first: Node?)
    reads nodes
  {
    first == At(nodes, from) &&
    forall k {:trigger nodes[k]} :: from <= k < |nodes| ==> nodes[k].next == At(nodes, k + 1)
  }

  ghost predicate Distinct(nodes: seq<Node>) {
    forall i, j :: 0 <= i < j < |nodes| ==> nodes[i] != nodes[j]
  }

  ghost predicate DistinctNames(nodes: seq<Node>) {
    forall i, j :: 0 <= i < j < |nodes| ==> !EqualIgnoreCase(nodes[i].name, nodes[j].name)
  }

  /** keyval_get, on the list as a sequence. */
  ghost function Lookup(nodes: seq<Node>, name: string): (r: Option<string>)
    ensures r.Some? ==> exists n :: n in nodes && EqualIgnoreCase(n.name, name) && n.value == r.value
    ensures r.None? ==> forall n :: n in nodes ==> !EqualIgnoreCase(n.name, name)
  {
    if nodes == [] then None
    else if EqualIgnoreCase(nodes[0].name, name) then
      assert nodes[0] in nodes;
      Some(nodes[0].value)
    else Lookup(nodes[1..], name)
  }

  /** Names of the same letters find the same. */
  lemma {:induction false} LookupAnyCase(nodes: seq<Node>, name: string, other: string)
    requires SameLetters(name, other)
    ensures Lookup(nodes, name) == Lookup(nodes, other)
  {
    if nodes != [] {
      IgnoreCaseIff(nodes[0].name, name);
      IgnoreCaseIff(nodes[0].name, other);
      LookupAnyCase(nodes[1..], name, other);
    }
  }

  /** With distinct names the order of the list does not matter for it. */
  lemma LookupByMembers(a: seq<Node>, b: seq<Node>, name: string)
    requires DistinctNames(a) && DistinctNames(b)
    requires forall n :: n in a <==> n in b
    ensures Lookup(a, name) == Lookup(b, name)
  {
    if Lookup(a, name).Some? && Lookup(b, name).Some? {
      var n :| n in a && EqualIgnoreCase(n.name, name) && n.value == Lookup(a, name).value;
      var m :| m in b && EqualIgnoreCase(m.name, name) && m.value == Lookup(b, name).value;
      assert n in b;
      assert EqualIgnoreCase(n.name, m.name) && EqualIgnoreCase(m.name, n.name);
      var i :| 0 <= i < |b| && b[i] == n;
      var j :| 0 <= j < |b| && b[j] == m;
    }
  }

  class KeyVal {
    var head: Node?
    var tail: Node?
    ghost var nodes: seq<Node>

    ghost predicate Valid()
      reads this, nodes
    {
      && Distinct(nodes) && DistinctNames(nodes)
      && Linked(nodes, 0, head)
      && tail == (if nodes == [] then null else nodes[|nodes| - 1])
    }

    /** keyval_alloc. */
    constructor ()
      ensures Valid() && nodes == []
    {
      head, tail, nodes := null, null, [];
    }

    /** keyval_get. */
    method Get(name: string) returns (value: Option<string>)
      requires Valid()
      ensures value == Lookup(nodes, name)
    {
      var okv := head;
      ghost var i := 0;
      while okv != null
        invariant i <= |nodes| && okv == At(nodes, i) && Lookup(nodes[i..], name) == Lookup(nodes, name)
        decreases |nodes| - i
      {
        if EqualIgnoreCase(okv.name, name) {
          return Some(okv.value);
        }
        assert nodes[i..][1..] == nodes[i + 1..];
        okv := okv.next;
        i := i + 1;
      }
      return None;
    }

    /** keyval_add_size: a name that is there already is fine with the same value only. */
    method AddSize(name: string, value: string, size: nat) returns (ret: int)
      requires Valid() && size <= |value|
      modifies this, nodes
      ensures Valid()
      ensures var found := old(Lookup(nodes, name));
              if found.Some? then nodes == old(nodes) && ret == if found.value == value then 0 else -1
              else ret == 0 && |nodes| == |old(nodes)| + 1 && nodes[..|old(nodes)|] == old(nodes)
                   && nodes[|old(nodes)|].name == name && nodes[|old(nodes)|].value == value[..size]
                   && fresh(nodes[|old(nodes)|])
    {
      var val := Get(name);
      if val.Some? {
        return if val.value == value then 0 else -1;
      }
      hide Lookup;
      var okv := new Node(name, value[..size]);
      Append(okv);
      ret := 0;
    }

    /** The linking at the end of keyval_add_size. */
    method Append(okv: Node)
      requires Valid() && okv !in nodes && okv.next == null
      requires forall n :: n in nodes ==> !EqualIgnoreCase(n.name, okv.name)
      modifies this, nodes
      ensures Valid() && nodes == old(nodes) + [okv]
    {
      hide EqualIgnoreCase;
      if head == null {
        head := okv;
      }
      if tail != null {
        tail.next := okv;
      }
      tail := okv;
      nodes := nodes + [okv];
    }

    /** keyval_remove: the node of that name is unlinked. */
    method Remove(name: string)
      requires Valid()
      modifies this, nodes
      ensures Valid()
      ensures var found := old(Lookup(nodes, name));
              if found.None? then nodes == old(nodes)
              else exists i :: 0 <= i < |old(nodes)| && EqualIgnoreCase(old(nodes)[i].name, name)
                               && nodes == old(nodes)[..i] + old(nodes)[i + 1..]
      ensures Lookup(nodes, name).None?
      ensures forall other :: !EqualIgnoreCase(other, name) ==> Lookup(nodes, other) == old(Lookup(nodes, other))
    {
      hide Lookup, EqualIgnoreCase;
      var okv, pokv: Node? := head, null;
      ghost var i, was := 0, nodes;
      while okv != null && !EqualIgnoreCase(okv.name, name)
        invariant i <= |nodes| && okv == At(nodes, i) && pokv == (if i == 0 then null else nodes[i - 1])
        invariant forall k :: 0 <= k < i ==> !EqualIgnoreCase(nodes[k].name, name)
        decreases |nodes| - i
      {
        pokv, okv := okv, okv.next;
        i := i + 1;
      }
      if okv == null {
        assert forall n :: n in nodes ==> !EqualIgnoreCase(n.name, name);
        return;
      }
      RemovedLookup(nodes, i, name);
      Unlink(okv, pokv, i);
    }

    /** What keyval_remove does once it has found the node and the one before it. */
    method Unlink(okv: Node, pokv: Node?, ghost i: nat)
      requires Valid() && i < |nodes| && okv == nodes[i] && pokv == (if i == 0 then null else nodes[i - 1])
      modifies this, nodes
      ensures Valid() && nodes == old(nodes)[..i] + old(nodes)[i + 1..]
    {
      hide DistinctNames;
      RemoveKeepsNames(nodes, i);
      ghost var rest := nodes[..i] + nodes[i + 1..];
      if okv == head {
        head := okv.next;
      }
      if okv == tail {
        tail := pokv;
      }
      if pokv != null {
        pokv.next := okv.next;
      }
      forall k | 0 <= k < |rest|
        ensures rest[k].next == At(rest, k + 1)
      {
        assert rest[k] == if k < i then nodes[k] else nodes[k + 1];
      }
      nodes := rest;
    }

    /** keyval_sort: the list becomes the same nodes in strictly increasing order of their names,
        and every name is found as before. */
    method Sort()
      requires Valid()
      modifies this, nodes
      ensures Valid() && Increasing(nodes) && multiset(nodes) == multiset(old(nodes))
      ensures forall name :: Lookup(nodes, name) == old(Lookup(nodes, name))
    {
      if head == null {
        return;
      }
      var first := FindSuccessors();
      Relink();
      head := first;
      Walk(first);
    }

    /** The first loop: every node's successor, and the least node. */
    method FindSuccessors() returns (first: Node)
      requires Valid() && head != null
      modifies nodes
      ensures Valid() && Least(nodes, |nodes|, first)
      ensures forall k :: 0 <= k < |nodes| ==> Successor(nodes, |nodes|, nodes[k], nodes[k].sort)
    {
      hide DistinctNames, Less, Least, Successor;
      first := head;
      assert Least(nodes, 0, first) by { LeastNone(nodes, first); }
      var okv := head;
      ghost var i := 0;
      while okv != null
        invariant i <= |nodes| && okv == At(nodes, i) && Valid() && Least(nodes, i, first)
        invariant forall k :: 0 <= k < i ==> Successor(nodes, |nodes|, nodes[k], nodes[k].sort)
        decreases |nodes| - i
      {
        FindSuccessor(okv, i);
        LeastStep(nodes, i, first);
        if Less(okv.name, first.name) {
          first := okv;
        }
        okv := okv.next;
        i := i + 1;
      }
    }

    method FindSuccessor(okv: Node, ghost i: nat)
      requires Valid() && i < |nodes| && okv == nodes[i]
      modifies okv`sort
      ensures Valid() && Successor(nodes, |nodes|, okv, okv.sort)
    {
      hide DistinctNames, Distinct, Less, Successor;
      okv.sort := null;
      SuccessorNone(nodes, okv);
      var sokv := head;
      ghost var j := 0;
      while sokv != null
        invariant j <= |nodes| && sokv == At(nodes, j) && Valid() && Successor(nodes, j, okv, okv.sort)
        decreases |nodes| - j
      {
        SuccessorStep(nodes, j, okv, okv.sort);
        if Less(okv.name, sokv.name) && (okv.sort == null || Less(sokv.name, okv.sort.name)) {
          okv.sort := sokv;
        }
        sokv := sokv.next;
        j := j + 1;
      }
    }

    /** The second loop: the successors become the links. */
    method Relink()
      requires Distinct(nodes) && Linked(nodes, 0, head)
      modifies this`head, nodes
      ensures forall k :: 0 <= k < |nodes| ==> nodes[k].next == nodes[k].sort == old(nodes[k].sort)
    {
      hide Distinct, At;
      ghost var i, all := 0, nodes;
      ghost var sorts := seq(|all|, k requires 0 <= k < |all| reads all => all[k].sort);
      Ends(all);
      while head != null
        invariant nodes == all && i <= |all| && head == At(all, i)
        invariant forall k {:trigger all[k]} :: i <= k < |all| ==> all[k].next == At(all, k + 1)
        invariant forall k {:trigger all[k]} :: 0 <= k < i ==> all[k].next == sorts[k]
        invariant forall k {:trigger all[k]} :: 0 <= k < |all| ==> all[k].sort == sorts[k]
        decreases |all| - i
      {
        var okv := head;
        OnlyAt(all, i);
        assert okv == all[i];
        head := okv.next;
        okv.next := okv.sort;
        i := i + 1;
      }
    }

    /** The last loop finds the tail; the nodes it passes are the sorted list. */
    method Walk(first: Node)
      requires Distinct(nodes) && DistinctNames(nodes) && head == first && Least(nodes, |nodes|, first)
      requires forall k :: 0 <= k < |nodes| ==> Successor(nodes, |nodes|, nodes[k], nodes[k].next)
      modifies this`tail, this`nodes
      ensures Valid() && Increasing(nodes) && multiset(nodes) == multiset(old(nodes))
      ensures forall name :: Lookup(nodes, name) == old(Lookup(nodes, name))
    {
      hide DistinctNames, Less, Least, Lookup, Distinct, Walked, Successor, Increasing, EqualIgnoreCase, Linked;
      var okv: Node? := head;
      ghost var chain: seq<Node>, left := [], set n | n in nodes;
      WalkStarts(nodes, first);
      while okv != null
        invariant nodes == old(nodes) && Walked(nodes, first, chain, okv)
        invariant chain != [] ==> tail == chain[|chain| - 1]
        invariant forall n :: n in left <==> n in nodes && n !in chain
        decreases left
      {
        WalkStep(nodes, first, chain, okv);
        tail := okv;
        chain, left := chain + [okv], left - {okv};
        okv := okv.next;
      }
      WalkEnds(nodes, first, chain);
      nodes := chain;
    }
  }

  // ----- Sorting -----

  /** s is the node with the least name greater than n's, among the first upTo; null if none is
      greater. */
  ghost predicate Successor(nodes: seq<Node>, upTo: nat, n: Node, s: Node?)
    requires upTo <= |nodes|
  {
    if s == null then forall k :: 0 <= k < upTo ==> !Less(n.name, nodes[k].name)
    else s in nodes && Less(n.name, s.name) &&
         forall k :: 0 <= k < upTo && Less(n.name, nodes[k].name) ==> !Less(nodes[k].name, s.name)
  }

  ghost predicate Least(nodes: seq<Node>, upTo: nat, first: Node)
    requires upTo <= |nodes|
  {
    first in nodes && forall k :: 0 <= k < upTo ==> !Less(nodes[k].name, first.name)
  }

  ghost predicate Increasing(nodes: seq<Node>) {
    forall i, j :: 0 <= i < j < |nodes| ==> Less(nodes[i].name, nodes[j].name)
  }

  /** One step of the inner search. */
  lemma SuccessorStep(nodes: seq<Node>, j: nat, n: Node, s: Node?)
    requires j < |nodes| && Successor(nodes, j, n, s)
    ensures var better := Less(n.name, nodes[j].name) && (s == null || Less(nodes[j].name, s.name));
            Successor(nodes, j + 1, n, if better then nodes[j] else s)
  {
    if Less(n.name, nodes[j].name) && s != null && Less(nodes[j].name, s.name) {
      forall k | 0 <= k < j && Less(n.name, nodes[k].name)
        ensures !Less(nodes[k].name, nodes[j].name)
      {
        LessNotAfter(nodes[k].name, nodes[j].name, s.name);
      }
    }
    LessTotal(nodes[j].name, nodes[j].name);
  }

  lemma LessNotAfter(a: string, b: string, c: string)
    requires !Less(a, c) && Less(b, c)
    ensures !Less(a, b)
  {
    if Less(a, b) {
      LessTransitive(a, b, c);
    }
  }

  lemma LeastStep(nodes: seq<Node>, i: nat, first: Node)
    requires i < |nodes| && Least(nodes, i, first)
    ensures Least(nodes, i + 1, if Less(nodes[i].name, first.name) then nodes[i] else first)
  {
    if Less(nodes[i].name, first.name) {
      forall k | 0 <= k < i ensures !Less(nodes[k].name, nodes[i].name) {
        LessNotAfter(nodes[k].name, nodes[i].name, first.name);
      }
      LessTotal(nodes[i].name, nodes[i].name);
    }
  }

  /** The chain of successors so far: increasing, and without gaps from the least name on. */
  ghost predicate Chain(nodes: seq<Node>, first: Node, chain: seq<Node>) {
    && Increasing(chain)
    && (forall n :: n in chain ==> n in nodes)
    && (chain != [] ==> chain[0] == first)
    && (chain != [] ==> forall n :: n in nodes && !Less(chain[|chain| - 1].name, n.name) ==> n in chain)
  }

  lemma ChainStep(nodes: seq<Node>, first: Node, chain: seq<Node>, n: Node)
    requires DistinctNames(nodes) && Least(nodes, |nodes|, first) && Chain(nodes, first, chain)
    requires if chain == [] then n == first else Successor(nodes, |nodes|, chain[|chain| - 1], n)
    ensures Chain(nodes, first, chain + [n]) && n !in chain
  {
    var chain' := chain + [n];
    forall i | 0 <= i < |chain| ensures Less(chain[i].name, n.name) {
      if i < |chain| - 1 {
        LessTransitive(chain[i].name, chain[|chain| - 1].name, n.name);
      }
    }
    forall m | m in nodes && !Less(n.name, m.name) ensures m in chain' {
      LessTotal(n.name, m.name);
      if m.name == n.name {
        OneNodePerName(nodes, m, n);
      } else {
        var k :| 0 <= k < |nodes| && nodes[k] == m;
      }
    }
    LessTotal(n.name, n.name);
  }

  lemma OneNodePerName(nodes: seq<Node>, m: Node, n: Node)
    requires DistinctNames(nodes) && m in nodes && n in nodes && m.name == n.name
    ensures m == n
  {
    var i :| 0 <= i < |nodes| && nodes[i] == m;
    var j :| 0 <= j < |nodes| && nodes[j] == n;
    assert EqualIgnoreCase(m.name, n.name);
  }

  lemma {:induction false} DistinctCount(nodes: seq<Node>, n: Node)
    requires Distinct(nodes)
    ensures multiset(nodes)[n] == if n in nodes then 1 else 0
  {
    if nodes != [] {
      DistinctCount(nodes[1..], n);
      assert nodes == [nodes[0]] + nodes[1..];
      assert n in nodes <==> n == nodes[0] || n in nodes[1..];
    }
  }

  /** Which places there are. */
  lemma Ends(nodes: seq<Node>)
    ensures forall i: nat {:trigger At(nodes, i)} :: At(nodes, i) == null <==> i >= |nodes|
    ensures forall i: nat {:trigger At(nodes, i)} :: i < |nodes| ==> At(nodes, i) == nodes[i]
  {
  }

  lemma OnlyAt(nodes: seq<Node>, i: nat)
    requires Distinct(nodes) && i < |nodes|
    ensures forall k :: 0 <= k < |nodes| && k != i ==> nodes[k] != nodes[i]
  {
  }

  lemma LeastNone(nodes: seq<Node>, first: Node)
    requires first in nodes
    ensures Least(nodes, 0, first)
  {
  }

  lemma SuccessorNone(nodes: seq<Node>, n: Node)
    ensures Successor(nodes, 0, n, null)
  {
  }

  /** The walk along the links has passed chain and is at okv. */
  ghost predicate Walked(nodes: seq<Node>, first: Node, chain: seq<Node>, okv: Node?)
    reads chain
  {
    && Chain(nodes, first, chain)
    && okv == (if chain == [] then first else chain[|chain| - 1].next)
    && forall i :: 0 <= i < |chain| - 1 ==> chain[i].next == chain[i + 1]
  }

  lemma WalkStarts(nodes: seq<Node>, first: Node)
    ensures Walked(nodes, first, [], first)
  {
  }

  lemma WalkStep(nodes: seq<Node>, first: Node, chain: seq<Node>, okv: Node)
    requires DistinctNames(nodes) && Least(nodes, |nodes|, first) && Walked(nodes, first, chain, okv)
    requires forall k :: 0 <= k < |nodes| ==> Successor(nodes, |nodes|, nodes[k], nodes[k].next)
    ensures Walked(nodes, first, chain + [okv], okv.next) && okv in nodes && okv !in chain
  {
    hide DistinctNames, Less, Least, Successor, Chain;
    ChainMembers(nodes, first, chain);
    LastInNodes(nodes, first, chain, okv);
    ChainStep(nodes, first, chain, okv);
  }

  lemma ChainMembers(nodes: seq<Node>, first: Node, chain: seq<Node>)
    requires Chain(nodes, first, chain)
    ensures forall n :: n in chain ==> n in nodes
  {
  }

  /** At the end of the walk it has passed the whole list in order. */
  lemma WalkEnds(nodes: seq<Node>, first: Node, chain: seq<Node>)
    requires Distinct(nodes) && DistinctNames(nodes) && Walked(nodes, first, chain, null)
    requires forall k :: 0 <= k < |nodes| ==> Successor(nodes, |nodes|, nodes[k], nodes[k].next)
    ensures chain != [] && Distinct(chain) && DistinctNames(chain) && Increasing(chain) && Linked(chain, 0, first)
    ensures multiset(chain) == multiset(nodes) && forall name :: Lookup(chain, name) == Lookup(nodes, name)
  {
    hide Distinct, DistinctNames, Less, Successor, Lookup, EqualIgnoreCase;
    ChainComplete(nodes, first, chain);
    ChainIsSorted(nodes, first, chain);
    ChainIncreasing(nodes, first, chain);
  }

  lemma ChainIncreasing(nodes: seq<Node>, first: Node, chain: seq<Node>)
    requires Chain(nodes, first, chain)
    ensures Increasing(chain)
  {
  }

  lemma LastInNodes(nodes: seq<Node>, first: Node, chain: seq<Node>, okv: Node)
    requires Least(nodes, |nodes|, first) && forall n :: n in chain ==> n in nodes
    requires chain != [] ==> okv == chain[|chain| - 1].next
    requires chain == [] ==> okv == first
    requires forall k :: 0 <= k < |nodes| ==> Successor(nodes, |nodes|, nodes[k], nodes[k].next)
    ensures chain != [] ==> Successor(nodes, |nodes|, chain[|chain| - 1], okv)
    ensures okv in nodes
  {
    if chain != [] {
      assert chain[|chain| - 1] in nodes;
    }
  }

  /** The chain ends where nothing is greater, so it has every node. */
  lemma ChainComplete(nodes: seq<Node>, first: Node, chain: seq<Node>)
    requires Chain(nodes, first, chain) && chain != [] && chain[|chain| - 1].next == null
    requires forall k :: 0 <= k < |nodes| ==> Successor(nodes, |nodes|, nodes[k], nodes[k].next)
    ensures forall n :: n in nodes ==> n in chain
  {
    var last := chain[|chain| - 1];
    assert last in nodes;
    assert Successor(nodes, |nodes|, last, null);
  }

  /** A complete chain is the list in order. */
  lemma ChainIsSorted(nodes: seq<Node>, first: Node, chain: seq<Node>)
    requires Distinct(nodes) && DistinctNames(nodes) && Chain(nodes, first, chain)
    requires forall n :: n in nodes ==> n in chain
    ensures Distinct(chain) && DistinctNames(chain) && multiset(chain) == multiset(nodes)
    ensures forall name :: Lookup(chain, name) == Lookup(nodes, name)
  {
    forall i, j | 0 <= i < j < |chain| ensures chain[i] != chain[j] && !EqualIgnoreCase(chain[i].name, chain[j].name) {
      LessTotal(chain[i].name, chain[j].name);
      var a :| 0 <= a < |nodes| && nodes[a] == chain[i];
      var b :| 0 <= b < |nodes| && nodes[b] == chain[j];
      if b < a {
        assert !EqualIgnoreCase(nodes[b].name, nodes[a].name);
      }
    }
    forall n ensures multiset(chain)[n] == multiset(nodes)[n] {
      DistinctCount(chain, n);
      DistinctCount(nodes, n);
    }
    forall name ensures Lookup(chain, name) == Lookup(nodes, name) {
      LookupByMembers(chain, nodes, name);
    }
  }

  lemma RemoveKeepsNames(nodes: seq<Node>, i: nat)
    requires DistinctNames(nodes) && Distinct(nodes) && i < |nodes|
    ensures DistinctNames(nodes[..i] + nodes[i + 1..]) && Distinct(nodes[..i] + nodes[i + 1..])
  {
  }

  /** Taking out the node of a name takes out that name and no other. */
  lemma RemovedLookup(nodes: seq<Node>, i: nat, name: string)
    requires DistinctNames(nodes) && i < |nodes| && EqualIgnoreCase(nodes[i].name, name)
    ensures var rest := nodes[..i] + nodes[i + 1..];
            && DistinctNames(rest) && Lookup(rest, name).None? && Lookup(nodes, name).Some?
            && forall other :: !EqualIgnoreCase(other, name) ==> Lookup(rest, other) == Lookup(nodes, other)
  {
    var rest := nodes[..i] + nodes[i + 1..];
    forall other | !EqualIgnoreCase(other, name)
      ensures Lookup(rest, other) == Lookup(nodes, other)
    {
      SkipLookup(nodes, i, name, other);
    }
    assert nodes[i] in nodes;
  }

  lemma SameName(a: string, b: string, name: string)
    requires EqualIgnoreCase(a, name) && EqualIgnoreCase(b, name)
    ensures EqualIgnoreCase(a, b) && EqualIgnoreCase(b, a)
  {
  }

  lemma {:induction false} SkipLookup(nodes: seq<Node>, i: nat, name: string, other: string)
    requires i < |nodes| && EqualIgnoreCase(nodes[i].name, name) && !EqualIgnoreCase(other, name)
    ensures Lookup(nodes[..i] + nodes[i + 1..], other) == Lookup(nodes, other)
  {
    if i == 0 {
      assert nodes[..i] + nodes[i + 1..] == nodes[1..];
      if EqualIgnoreCase(nodes[0].name, other) {
        SameName(other, name, nodes[0].name);
      }
    } else {
      SkipLookup(nodes[1..], i - 1, name, other);
      assert (nodes[..i] + nodes[i + 1..])[1..] == nodes[1..][..i - 1] + nodes[1..][i..];
    }
  }

  /** What is stored under a name is found under the same letters in any case. */
  method FoundInAnyCase(name: string, asked: string, value: string) returns (found: Option<string>)
    requires SameLetters(name, asked)
    ensures found == Some(value)
  {
    var kv := new KeyVal();
    var ret := kv.AddSize(name, value, |value|);
    assert value[..|value|] == value;
    assert kv.nodes[..0] == [];
    IgnoreCaseIff(name, name);
    assert Lookup(kv.nodes, name) == Some(value);
    LookupAnyCase(kv.nodes, name, asked);
    found := kv.Get(asked);
  }
}
