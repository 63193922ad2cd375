/** The singly-linked list: nodes that hold a value and a reference to the next
    node, and a list object that holds a reference to the first node. Each list
    method walks and relinks the nodes in place; its contract says what it does to
    the sequence of values the list holds. */
module LinkedLists {
  import opened ListSpec

  /** One cell of the chain. */
  class Node<T> {
    var value: T
    var next: Node?<T>

    constructor (value: T, next: Node?<T>)
      ensures this.value == value && this.next == next
    {
      this.value := value;
      this.next := next;
    }

    function HasNext(): (r: bool)
      reads this
      ensures r <==> next != null
    {
      next != null
    }

    function GetNext(): (r: Node?<T>)
      reads this
      ensures r == next
    {
      next
    }

    function GetValue(): (r: T)
      reads this
      ensures r == value
    {
      value
    }

    method SetValue(inVal: T)
      modifies this`value
      ensures value == inVal
    {
      value := inVal;
    }

    method SetNext(nxt: Node?<T>)
      modifies this`next
      ensures next == nxt
    {
      next := nxt;
    }
  }

  /** `ns` is the chain reached from `head`: each node links to the one after it,
      the last links to nothing, and no node occurs twice. */
  ghost predicate Chain<T>(head: Node?<T>, ns: seq<Node<T>>)
    reads ns
  {
    head == (if ns == [] then null else ns[0]) &&
    (ns != [] ==> ns[|ns| - 1].next == null) &&
    (forall i :: 0 <= i < |ns| - 1 ==> ns[i].next == ns[i + 1]) &&
    Distinct(ns)
  }

  ghost predicate Distinct<T>(s: seq<T>) {
    forall i, j :: 0 <= i < j < |s| ==> s[i] != s[j]
  }

  /** The successor of the node at position `k` of a chain. */
  lemma ChainNext<T>(head: Node?<T>, ns: seq<Node<T>>, k: nat)
    requires Chain(head, ns) && k < |ns|
    ensures ns[k].next == if k + 1 < |ns| then ns[k + 1] else null
  {
  }

  /** `a` and `b` share no element. */
  ghost predicate Disjoint<T>(a: seq<T>, b: seq<T>) {
    forall j, l :: 0 <= j < |a| && 0 <= l < |b| ==> a[j] != b[l]
  }

  /** The nodes `ns` hold the values `vs`, position by position. */
  ghost predicate Holds<T>(ns: seq<Node<T>>, vs: seq<T>)
    reads ns
  {
    |ns| == |vs| && forall i :: 0 <= i < |ns| ==> ns[i].value == vs[i]
  }

  /** The part of a chain from position `k` on is itself a chain, from the node
      at `k`, and shares no node with the part before `k`. */
  lemma ChainSuffix<T>(head: Node?<T>, ns: seq<Node<T>>, k: nat)
    requires Chain(head, ns) && k <= |ns|
    ensures Chain(if k < |ns| then ns[k] else null, ns[k..])
    ensures Disjoint(ns[..k], ns[k..])
  {
    var rest := ns[k..];
    forall i | 0 <= i < |rest| - 1 ensures rest[i].next == rest[i + 1] {
      assert rest[i] == ns[k + i] && rest[i + 1] == ns[k + i + 1];
    }
    forall i, j | 0 <= i < j < |rest| ensures rest[i] != rest[j] {
      assert rest[i] == ns[k + i] && rest[j] == ns[k + j];
    }
    forall i, j | 0 <= i < k && 0 <= j < |rest| ensures ns[..k][i] != rest[j] {
      assert rest[j] == ns[k + j];
    }
    if rest != [] {
      assert rest[|rest| - 1] == ns[|ns| - 1];
    }
  }

  /** Linking the last node of `a`, whose other nodes are linked in order, to
      the head of a chain `b` that shares no node with it yields one chain. */
  lemma ChainJoin<T>(head: Node?<T>, a: seq<Node<T>>, b: seq<Node<T>>)
    requires a != [] && head == a[0] && Distinct(a)
    requires forall j :: 0 <= j < |a| - 1 ==> a[j].next == a[j + 1]
    requires Chain(a[|a| - 1].next, b) && Disjoint(a, b)
    ensures Chain(head, a + b)
  {
    var ab := a + b;
    forall i | 0 <= i < |ab| - 1 ensures ab[i].next == ab[i + 1] {
      if i >= |a| {
        assert ab[i] == b[i - |a|];
      }
    }
    forall i, j | 0 <= i < j < |ab| ensures ab[i] != ab[j] {
      if i >= |a| {
        assert ab[i] == b[i - |a|] && ab[j] == b[j - |a|];
      } else if j >= |a| {
        assert ab[j] == b[j - |a|];
      }
    }
    if b != [] {
      assert ab[|ab| - 1] == b[|b| - 1];
    }
  }

  /** A chain `N` whose link out of position `k - 1` now goes to a new last
      node `n` is the chain of its first `k` nodes followed by `n`. */
  lemma ChainCut<T>(N: seq<Node<T>>, k: nat, n: Node<T>)
    requires 0 < k <= |N| && Distinct(N) && n !in N
    requires forall j :: 0 <= j < k - 1 ==> N[j].next == N[j + 1]
    requires N[k - 1].next == n && n.next == null
    ensures Chain(N[0], N[..k] + [n])
  {
    var M := N[..k] + [n];
    forall j | 0 <= j < |M| - 1 ensures M[j].next == M[j + 1] {
    }
    forall j, l | 0 <= j < l < |M| ensures M[j] != M[l] {
    }
  }

  /** A chain `N` whose link out of position `i - 1` now goes through a new
      node `n` to position `i` is the chain with `n` spliced in at `i`. */
  lemma ChainInsert<T>(N: seq<Node<T>>, i: nat, n: Node<T>)
    requires 0 < i <= |N| && Distinct(N) && n !in N
    requires forall j :: 0 <= j < |N| - 1 && j != i - 1 ==> N[j].next == N[j + 1]
    requires i < |N| ==> N[|N| - 1].next == null
    requires N[i - 1].next == n && n.next == if i < |N| then N[i] else null
    ensures Chain(N[0], N[..i] + [n] + N[i..])
  {
    var M := N[..i] + [n] + N[i..];
    forall j | 0 <= j < |M| - 1 ensures M[j].next == M[j + 1] {
      if j > i {
        assert M[j] == N[j - 1] && M[j + 1] == N[j];
      }
    }
    forall j, l | 0 <= j < l < |M| ensures M[j] != M[l] {
      if j > i {
        assert M[j] == N[j - 1] && M[l] == N[l - 1];
      } else if j < i && l > i {
        assert M[l] == N[l - 1];
      }
    }
    assert M[|M| - 1] == if i < |N| then N[|N| - 1] else n;
  }

  /** Taking out position `m` of `s` leaves its prefix up to `m` and its suffix
      after `m`. */
  lemma SkipAt<T>(s: seq<T>, m: nat)
    requires m < |s|
    ensures (s[..m] + s[m + 1..])[..m] == s[..m]
    ensures (s[..m] + s[m + 1..])[m..] == s[m + 1..]
  {
  }

  /** When `s` from `m` on is `t` from `k` on, the same holds one position further. */
  lemma SliceStep<T>(s: seq<T>, m: nat, t: seq<T>, k: nat)
    requires m < |s| && k <= |t| && s[m..] == t[k..]
    ensures k < |t| && s[m] == t[k] && s[m + 1..] == t[k + 1..]
    ensures s[..m + 1] == s[..m] + [s[m]]
  {
    assert s[m..][0] == s[m];
    assert s[m + 1..] == s[m..][1..];
  }

  lemma SplitAt<T>(s: seq<T>, m: nat)
    requires m <= |s|
    ensures s == s[..m] + s[m..]
  {
  }

  lemma TakeOneMore<T>(s: seq<T>, i: nat)
    requires i < |s|
    ensures s[..i + 1] == s[..i] + [s[i]]
  {
  }

  /** `TakeOneMore` behind a fixed prefix, as the appending loops grow their contents. */
  lemma AppendOneMore<T>(pre: seq<T>, s: seq<T>, i: nat)
    requires i < |s|
    ensures pre + s[..i] + [s[i]] == pre + s[..i + 1]
  {
    TakeOneMore(s, i);
  }

  lemma HoldsJoin<T>(a: seq<Node<T>>, va: seq<T>, b: seq<Node<T>>, vb: seq<T>)
    requires Holds(a, va) && Holds(b, vb)
    ensures Holds(a + b, va + vb)
  {
  }

  class LinkedList<T(==)> {
    var start: Node?<T>
    /** The nodes of the list, in order from `start`. */
    ghost var nodes: seq<Node<T>>
    /** The values the list holds, in order: what `ToList` returns. */
    ghost var contents: seq<T>

    ghost predicate Valid()
      reads this, nodes
    {
      Chain(start, nodes) && Holds(nodes, contents)
    }

    constructor ()
      ensures Valid() && contents == []
    {
      start := null;
      nodes := [];
      contents := [];
    }

    function IsEmpty(): (r: bool)
      reads this, nodes
      requires Valid()
      ensures r <==> contents == []
    {
      start == null
    }

    /** Walks from `start` to the node without a successor: the last one. */
    method LastNode() returns (p: Node<T>)
      requires Valid() && start != null
      ensures p == nodes[|nodes| - 1]
    {
      p := start;
      ghost var k := 0;
      while p.HasNext()
        invariant 0 <= k < |nodes| && p == nodes[k]
        decreases |nodes| - k
      {
        p := p.GetNext();
        k := k + 1;
      }
      ChainNext(start, nodes, k);
    }

    /** Links a new node holding `item` after `last`, the last node, leaving the
        detached chain `rest`, which starts at `p` and holds `vals`, as it was. */
    method LinkAtEnd(last: Node<T>, item: T, ghost p: Node?<T>, ghost rest: seq<Node<T>>, ghost vals: seq<T>)
      returns (n: Node<T>)
      requires Valid() && nodes != [] && last == nodes[|nodes| - 1]
      requires Chain(p, rest) && Holds(rest, vals) && Disjoint(nodes, rest)
      modifies this, last`next
      ensures Valid() && start == old(start) && fresh(n)
      ensures nodes == old(nodes) + [n] && contents == old(contents) + [item]
      ensures Chain(p, rest) && Holds(rest, vals) && Disjoint(nodes, rest)
    {
      n := new Node(item, null);
      assert last !in rest;
      last.SetNext(n);
      nodes, contents := nodes + [n], contents + [item];
    }

    /** Links the fresh node `n` after `back`, the node at position `k - 1`, so
        that the list ends at `n`; the nodes from `k` on are left detached. */
    method CutAfter(back: Node<T>, n: Node<T>, ghost k: nat)
      requires Valid() && 0 < k <= |nodes| && back == nodes[k - 1]
      requires n !in nodes && n.next == null
      modifies this, back`next
      ensures Valid() && start == old(start)
      ensures nodes == old(nodes)[..k] + [n] && contents == old(contents)[..k] + [n.value]
      ensures Chain(if k < |old(nodes)| then old(nodes)[k] else null, old(nodes)[k..])
      ensures Holds(old(nodes)[k..], old(contents)[k..]) && Disjoint(nodes, old(nodes)[k..])
    {
      ghost var N := nodes;
      ChainSuffix(start, N, k);
      assert back == N[..k][k - 1];
      back.SetNext(n);
      ChainCut(N, k, n);
      nodes, contents := N[..k] + [n], contents[..k] + [n.value];
    }

    /** Links the chain `rest`, which starts at `p` and holds `vals`, after
        `last`, the last node. */
    method LinkChainAtEnd(last: Node<T>, p: Node?<T>, ghost rest: seq<Node<T>>, ghost vals: seq<T>)
      requires Valid() && nodes != [] && last == nodes[|nodes| - 1]
      requires Chain(p, rest) && Holds(rest, vals) && Disjoint(nodes, rest)
      modifies this, last`next
      ensures Valid() && start == old(start)
      ensures nodes == old(nodes) + rest && contents == old(contents) + vals
    {
      last.SetNext(p);
      ChainJoin(start, nodes, rest);
      HoldsJoin(nodes, contents, rest, vals);
      nodes, contents := nodes + rest, contents + vals;
    }

    method AddToEnd(item: T)
      requires Valid()
      modifies this, set n | n in nodes
      ensures Valid()
      ensures contents == old(contents) + [item]
      ensures forall n <- nodes :: n in old(nodes) || fresh(n)
    {
      if start == null {
        start := new Node(item, null);
        nodes, contents := [start], [item];
      } else {
        var p := LastNode();
        var _ := LinkAtEnd(p, item, null, [], []);
      }
    }

    method AddToStart(item: T)
      requires Valid()
      modifies this
      ensures Valid()
      ensures contents == [item] + old(contents)
      ensures forall n <- nodes :: n in old(nodes) || fresh(n)
    {
      var n := new Node(item, null);
      if !IsEmpty() {
        n.next := start;
      }
      start := n;
      nodes := [n] + nodes;
      contents := [item] + contents;
    }

    /** Fails, changing nothing, when both the list and `items` are empty: the
        first item is read before anything is linked. */
    method AddAllToEnd(items: seq<T>) returns (ok: bool)
      requires Valid()
      modifies this, set n | n in nodes
      ensures Valid()
      ensures ok <==> old(contents) != [] || items != []
      ensures contents == if ok then old(contents) + items else old(contents)
      ensures forall n <- nodes :: n in old(nodes) || fresh(n)
    {
      var p: Node<T>;
      var from: nat;
      if start == null {
        if items == [] {
          return false;
        }
        start := new Node(items[0], null);
        p := start;
        nodes, contents := [p], [items[0]];
        from := 1;
      } else {
        p := LastNode();
        from := 0;
      }
      ghost var before := old(contents);
      assert contents == before + items[..from];
      for i := from to |items|
        invariant Valid() && nodes != []
        invariant p == nodes[|nodes| - 1]
        invariant p in old(nodes) || fresh(p)
        invariant forall n <- nodes :: n in old(nodes) || fresh(n)
        invariant contents == before + items[..i]
      {
        p := LinkAtEnd(p, items[i], null, [], []);
        AppendOneMore(before, items, i);
      }
      assert items[..|items|] == items;
      ok := true;
    }

    method Length() returns (length: nat)
      requires Valid()
      ensures length == |contents|
    {
      if start == null {
        return 0;
      }
      length := 1;
      var p := start;
      while p.HasNext()
        invariant 1 <= length <= |nodes| && p == nodes[length - 1]
        decreases |nodes| - length
      {
        p := p.GetNext();
        length := length + 1;
      }
      ChainNext(start, nodes, length - 1);
    }

    method Contains(item: T) returns (found: bool)
      requires Valid()
      ensures found <==> item in contents
    {
      if start == null {
        return false;
      }
      var p := start;
      if p.GetValue() == item {
        return true;
      }
      ghost var k := 0;
      while p.HasNext()
        invariant 0 <= k < |nodes| && p == nodes[k]
        invariant item !in contents[..k + 1]
        decreases |nodes| - k
      {
        ChainNext(start, nodes, k);
        p := p.GetNext();
        k := k + 1;
        if p.GetValue() == item {
          return true;
        }
        assert contents[..k + 1] == contents[..k] + [contents[k]];
      }
      ChainNext(start, nodes, k);
      assert contents[..k + 1] == contents;
      return false;
    }

    /** The lowest index holding `item`; fails when no element equals it. */
    method Index(item: T) returns (r: Result<nat>)
      requires Valid()
      ensures r.Ok? <==> item in contents
      ensures r.Ok? ==> r.value < |contents| && contents[r.value] == item
      ensures r.Ok? ==> item !in contents[..r.value]
    {
      if start != null {
        var p := start;
        var index := 1;
        if p.GetValue() == item {
          return Ok(0);
        }
        while p.HasNext()
          invariant 1 <= index <= |nodes| && p == nodes[index - 1]
          invariant item !in contents[..index]
          decreases |nodes| - index
        {
          ChainNext(start, nodes, index - 1);
          p := p.GetNext();
          if p.GetValue() == item {
            return Ok(index);
          }
          assert contents[..index + 1] == contents[..index] + [contents[index]];
          index := index + 1;
        }
        ChainNext(start, nodes, index - 1);
        assert contents[..index] == contents;
      }
      return Err;
    }

    /** The node at `index` and the node before it, either of them null when it
        does not exist. */
    method PointersForIndex(index: nat) returns (p: Node?<T>, back: Node?<T>)
      requires Valid()
      ensures index == 0 ==> p == start && back == null
      ensures 0 < index < |nodes| ==> p == nodes[index] && back == nodes[index - 1]
      ensures 0 < index == |nodes| ==> p == null && back == nodes[index - 1]
      ensures index > |nodes| ==> p == null && back == null
    {
      p := start;
      back := null;
      var count := 0;
      while count < index
        invariant count <= index && count <= |nodes|
        invariant p == if count < |nodes| then nodes[count] else null
        invariant back == if count == 0 then null else nodes[count - 1]
      {
        back := p;
        if p != null {
          p := p.GetNext();
        }
        count := count + 1;
        if p == null && back == null {
          break;
        }
      }
    }

    /** The value at `index`; fails when `index` is past the last element. */
    method ItemAtIndex(index: nat) returns (r: Result<T>)
      requires Valid()
      ensures r == if index < |contents| then Ok(contents[index]) else Err
    {
      if start == null {
        return Err;
      }
      var p, _ := PointersForIndex(index);
      if p != null {
        return Ok(p.GetValue());
      }
      return Err;
    }

    method ItemAtStart() returns (r: Result<T>)
      requires Valid()
      ensures r == if contents == [] then Err else Ok(contents[0])
    {
      r := ItemAtIndex(0);
    }

    /** The last value, or `None` when the list is empty. */
    method ItemAtEnd() returns (r: Option<T>)
      requires Valid()
      ensures r == if contents == [] then None else Some(contents[|contents| - 1])
    {
      if start == null {
        return None;
      }
      var p := LastNode();
      return Some(p.GetValue());
    }

    method InsertValueAtStart(value: T)
      requires Valid()
      modifies this
      ensures Valid()
      ensures contents == [value] + old(contents)
      ensures nodes != [] && fresh(nodes[0]) && nodes[1..] == old(nodes)
      ensures forall n <- nodes :: n in old(nodes) || fresh(n)
    {
      var n := new Node(value, null);
      var p := start;
      start := n;
      n.SetNext(p);
      nodes := [n] + nodes;
      contents := [value] + contents;
    }

    /** Puts `value` at position `index`. On an empty list any index inserts the
        one element; on a non-empty list an index past the end fails, changing
        nothing, since there is no node before the position to link from. */
    method InsertValueAtIndex(value: T, index: nat) returns (ok: bool)
      requires Valid()
      modifies this, set n | n in nodes
      ensures Valid()
      ensures ok <==> index <= |old(contents)| || old(contents) == []
      ensures ok && old(contents) == [] ==> contents == [value]
      ensures ok && index <= |old(contents)| ==>
        contents == old(contents)[..index] + [value] + old(contents)[index..]
      ensures !ok ==> contents == old(contents)
      ensures forall n <- nodes :: n in old(nodes) || fresh(n)
    {
      var p, back := PointersForIndex(index);
      if p == start {
        InsertValueAtStart(value);
        return true;
      }
      if back == null {
        return false;
      }
      LinkAfter(back, value, p, index);
      return true;
    }

    /** Puts a new node holding `item` at position `index`, where `p` and `back`
        are the nodes at and before `index`, and ends the list there; the nodes
        from `index` on are left detached. */
    method SpliceFirst(p: Node?<T>, back: Node?<T>, item: T, ghost index: nat) returns (n: Node<T>)
      requires Valid() && index <= |nodes|
      requires index == 0 ==> p == start && back == null
      requires 0 < index ==> back == nodes[index - 1] && p == (if index < |nodes| then nodes[index] else null)
      modifies this, back
      ensures Valid() && fresh(n) && nodes != [] && n == nodes[|nodes| - 1]
      ensures forall x <- nodes :: x in old(nodes) || fresh(x)
      ensures contents == old(contents)[..index] + [item]
      ensures Chain(p, old(nodes)[index..]) && Holds(old(nodes)[index..], old(contents)[index..])
      ensures Disjoint(nodes, old(nodes)[index..])
    {
      ChainSuffix(start, nodes, index);
      n := new Node(item, null);
      if back == null && start == p {
        start := n;
        nodes, contents := [n], [item];
      } else {
        CutAfter(back, n, index);
      }
    }

    /** Splices the items of `inList`, in order, in at position `index`. Fails,
        changing nothing, on an empty list, when `index` is past the end, or when
        `inList` is empty (its first item is read before anything is linked). */
    method InsertAllAtIndex(inList: seq<T>, index: nat) returns (ok: bool)
      requires Valid()
      modifies this, set n | n in nodes
      ensures Valid()
      ensures ok <==> old(contents) != [] && index <= |old(contents)| && inList != []
      ensures contents ==
        if ok then old(contents)[..index] + inList + old(contents)[index..] else old(contents)
      ensures forall n <- nodes :: n in old(nodes) || fresh(n)
    {
      var p, back := PointersForIndex(index);
      if p == null && back == null {
        return false;
      }
      if inList == [] {
        return false;
      }
      ghost var N, C := nodes, contents;
      ghost var rest := N[index..];
      // Until `p` is linked back in, the list ends at `back` and `rest` hangs
      // off on its own.
      back := SpliceFirst(p, back, inList[0], index);
      for i := 1 to |inList|
        invariant Valid() && nodes != [] && back == nodes[|nodes| - 1]
        invariant fresh(back)
        invariant forall n <- nodes :: n in old(nodes) || fresh(n)
        invariant contents == C[..index] + inList[..i]
        invariant Chain(p, rest) && Holds(rest, C[index..]) && Disjoint(nodes, rest)
      {
        back := LinkAtEnd(back, inList[i], p, rest, C[index..]);
        AppendOneMore(C[..index], inList, i);
      }
      LinkChainAtEnd(back, p, rest, C[index..]);
      assert inList[..|inList|] == inList;
      return true;
    }

    /** Drops the first element. Fails, changing nothing, unless there are at least two. */
    method RemoveFirstItem() returns (ok: bool)
      requires Valid()
      modifies this
      ensures Valid()
      ensures ok <==> |old(contents)| >= 2
      ensures contents == if ok then old(contents)[1..] else old(contents)
      ensures forall n <- nodes :: n in old(nodes) || fresh(n)
    {
      if start != null {
        ChainNext(start, nodes, 0);
        if start.GetNext() != null {
          start := start.GetNext();
          nodes, contents := nodes[1..], contents[1..];
          return true;
        } else {
          return false;
        }
      } else {
        return false;
      }
    }

    /** Drops the element at position `i`. Position 0 is dropped as
        `RemoveFirstItem` drops it; any other position must hold an element. */
    method RemoveItemAtIndex(i: int) returns (ok: bool)
      requires Valid()
      modifies this, set n | n in nodes
      ensures Valid()
      ensures ok <==> (i == 0 && |old(contents)| >= 2) || 1 <= i < |old(contents)|
      ensures contents ==
        if ok then old(contents)[..i] + old(contents)[i + 1..] else old(contents)
      ensures forall n <- nodes :: n in old(nodes) || fresh(n)
    {
      if i == 0 {
        ok := RemoveFirstItem();
        return;
      }
      if start != null {
        var p := start;
        var p1: Node?<T> := null;
        var index := 0;
        while p.HasNext() && index < i
          modifies {}
          invariant 0 <= index < |nodes| && p == nodes[index]
          invariant index == 0 || index <= i
          invariant index > 0 ==> p1 == nodes[index - 1]
          decreases |nodes| - index
        {
          ChainNext(start, nodes, index);
          p1 := p;
          p := p.GetNext();
          index := index + 1;
        }
        ChainNext(start, nodes, index);
        if index != i {
          return false;
        } else {
          UnlinkAfter(p1, p, i, true);
          return true;
        }
      } else {
        return false;
      }
    }

    /** Links `prev` past `node`, its successor. When `listed`, the two are the
        nodes at positions `i - 1` and `i` and `node` leaves the list; otherwise
        `prev` is not in the list and the list is unaffected. */
    method UnlinkAfter(prev: Node<T>, node: Node<T>, ghost i: nat, ghost listed: bool)
      requires Valid() && prev.next == node
      requires listed ==> 0 < i < |nodes| && prev == nodes[i - 1] && node == nodes[i]
      requires !listed ==> prev !in nodes
      modifies this, prev`next
      ensures Valid() && start == old(start) && prev.next == old(node.next)
      ensures nodes == if listed then old(nodes)[..i] + old(nodes)[i + 1..] else old(nodes)
      ensures contents == if listed then old(contents)[..i] + old(contents)[i + 1..] else old(contents)
      ensures forall n <- nodes :: n in old(nodes)
    {
      if listed {
        ChainNext(start, nodes, i);
      }
      prev.SetNext(node.GetNext());
      if listed {
        nodes, contents := nodes[..i] + nodes[i + 1..], contents[..i] + contents[i + 1..];
      }
    }

    /** Links a new node holding `value` in after `prev`, at position `i`, in front
        of `p`, the node that was there. */
    method LinkAfter(prev: Node<T>, value: T, p: Node?<T>, ghost i: nat)
      requires Valid() && 0 < i <= |nodes| && prev == nodes[i - 1]
      requires p == if i < |nodes| then nodes[i] else null
      modifies this, prev`next
      ensures Valid() && start == old(start)
      ensures |nodes| == |old(nodes)| + 1 && fresh(nodes[i])
      ensures nodes[..i] == old(nodes)[..i] && nodes[i + 1..] == old(nodes)[i..]
      ensures contents == old(contents)[..i] + [value] + old(contents)[i..]
    {
      ghost var N := nodes;
      var n := new Node(value, p);
      prev.SetNext(n);
      ChainInsert(N, i, n);
      nodes, contents := N[..i] + [n] + N[i..], contents[..i] + [value] + contents[i..];
    }

    /** Drops the last element. Fails, changing nothing, on an empty list, and on
        a one-element list too: there is no node before the last to unlink it from. */
    method RemoveLastItem() returns (ok: bool)
      requires Valid()
      modifies this, set n | n in nodes
      ensures Valid()
      ensures ok <==> |old(contents)| >= 2
      ensures contents == if ok then old(contents)[..|old(contents)| - 1] else old(contents)
      ensures forall n <- nodes :: n in old(nodes) || fresh(n)
    {
      if start == null {
        return false;
      }
      var p := start;
      var p1: Node?<T> := null;
      ghost var k := 0;
      while p.HasNext()
        modifies {}
        invariant 0 <= k < |nodes| && p == nodes[k]
        invariant p1 == if k == 0 then null else nodes[k - 1]
        decreases |nodes| - k
      {
        ChainNext(start, nodes, k);
        p1 := p;
        p := p.GetNext();
        k := k + 1;
      }
      ChainNext(start, nodes, k);
      if p1 == null {
        return false;
      }
      p1.SetNext(null);
      nodes, contents := nodes[..k], contents[..k];
      return true;
    }

    /** Where the walk of `Remove` stands, against the list `N` holding `C` it
        started from: it has reached position `k` of `N` and stands on `p`,
        whose successor is the node after `k`; from position `m` on the list is
        still the unvisited rest of `N`. While `detached`, `p` is the old head,
        already out of the list, and the list is `N` without it. Otherwise `p`
        is the node at `m - 1`. Looking for the first match only, nothing has
        changed yet; removing all, the visited part holds what the walk keeps
        of `C` up to `k`. */
    ghost predicate Walk(p: Node<T>, val: T, firstOnly: bool, N: seq<Node<T>>, C: seq<T>,
                         k: nat, m: nat, detached: bool)
      reads this, nodes, p
    {
      Valid() && k < |N| == |C| && p in N &&
      p.next == (if k + 1 < |N| then N[k + 1] else null) &&
      m <= |nodes| && nodes[m..] == N[k + 1..] && contents[m..] == C[k + 1..] &&
      (detached ==> !firstOnly && p == N[0] && p !in nodes && m == k) &&
      (!detached ==> 0 < m && p == nodes[m - 1]) &&
      (firstOnly ==> contents == C && m == k + 1 && val !in C[..k + 1]) &&
      (!firstOnly ==> contents[..m] == RemoveAllAsWritten(C[..k + 1], val)) &&
      (!firstOnly ==> (detached <==> C[0] == val && AllEqual(C[1..k + 1], val)))
    }

    /** The walk steps from `p1` to its successor `p`, which matches: `p1` is
        linked past it. Looking for the first match only, this is the result. */
    method SkipMatch(p1: Node<T>, p: Node<T>, val: T, firstOnly: bool, ghost N: seq<Node<T>>,
                     ghost C: seq<T>, ghost k: nat, ghost m: nat, ghost detached: bool)
      returns (ghost m': nat)
      requires Walk(p1, val, firstOnly, N, C, k, m, detached)
      requires k + 1 < |N| && p == N[k + 1] && p.value == val
      modifies this, p1`next
      ensures firstOnly ==> Valid() && contents == RemoveFirst(C, val)
      ensures !firstOnly ==> Walk(p1, val, firstOnly, N, C, k + 1, m', detached)
      ensures forall n <- nodes :: n in old(nodes)
    {
      ghost var j := k + 1;
      ghost var ns, cs := nodes, contents;
      ChainNext(start, nodes, m);
      SliceStep(ns, m, N, j);
      SliceStep(cs, m, C, j);
      RemoveAllStep(C, val, j);
      TakeOneMore(C, j);
      UnlinkAfter(p1, p, m, !detached);
      if detached {
        m' := m + 1;
      } else {
        SkipAt(ns, m);
        SkipAt(cs, m);
        assert nodes[m - 1] == nodes[..m][m - 1] == ns[m - 1];
        m' := m;
      }
      if firstOnly {
        RemoveFirstAt(C, val, j);
      }
    }

    /** The walk steps from `p1` to its successor `p`, which does not match and
        is kept: the walk now stands on `p`, in the list. */
    lemma KeepMismatch(p1: Node<T>, p: Node<T>, val: T, firstOnly: bool, N: seq<Node<T>>,
                       C: seq<T>, k: nat, m: nat, detached: bool)
      requires Walk(p1, val, firstOnly, N, C, k, m, detached)
      requires k + 1 < |N| && p == N[k + 1] && p.value != val
      ensures Walk(p, val, firstOnly, N, C, k + 1, m + 1, false)
    {
      ghost var j := k + 1;
      ChainNext(start, nodes, m);
      SliceStep(nodes, m, N, j);
      SliceStep(contents, m, C, j);
      RemoveAllStep(C, val, j);
      TakeOneMore(C, j);
    }

    /** One pass of the walk from `p0`, which has a successor: the walk steps to
        it and unlinks it when it matches, stopping there when only the first
        match is wanted (`done`). */
    method WalkStep(p0: Node<T>, val: T, firstOnly: bool, ghost N: seq<Node<T>>, ghost C: seq<T>,
                    ghost k: nat, ghost m: nat, ghost detached: bool)
      returns (p: Node<T>, p1: Node<T>, done: bool, ghost k': nat, ghost m': nat, ghost detached': bool)
      requires Walk(p0, val, firstOnly, N, C, k, m, detached) && p0.next != null
      modifies this, p0`next
      ensures done ==> firstOnly && Valid() && contents == RemoveFirst(C, val)
      ensures !done ==> p == p1 && k' == k + 1 && Walk(p, val, firstOnly, N, C, k', m', detached')
      ensures forall n <- nodes :: n in old(nodes)
    {
      p1 := p0;
      p := p0.GetNext();
      k' := k + 1;
      if p.GetValue() == val {
        m' := SkipMatch(p1, p, val, firstOnly, N, C, k, m, detached);
        detached' := detached;
        if firstOnly {
          return p, p1, true, k', m', detached';
        }
        p := p1;
      } else {
        KeepMismatch(p1, p, val, firstOnly, N, C, k, m, detached);
        p1 := p;
        m', detached' := m + 1, false;
      }
      done := false;
    }

    /** Where the walk starts: on the head `p` of the chain `N` holding `C`,
        detached from the list exactly when it matched and was skipped. */
    lemma WalkStart(p: Node<T>, val: T, firstOnly: bool, N: seq<Node<T>>, C: seq<T>, detached: bool)
      requires Valid() && Chain(p, N) && Holds(N, C) && N != []
      requires detached <==> C[0] == val
      requires detached ==> !firstOnly && nodes == N[1..] && contents == C[1..]
      requires !detached ==> nodes == N && contents == C
      ensures Walk(p, val, firstOnly, N, C, 0, if detached then 0 else 1, detached)
    {
      ChainNext(p, N, 0);
      assert C[..1] == [C[0]] && C[1..1] == [];
      if detached {
        assert p !in nodes by {
          assert forall i :: 0 <= i < |nodes| ==> nodes[i] == N[i + 1];
        }
      }
    }

    /** The loop of `Remove`, from its start on `p0`: steps until the walk stops
        on the last node, or on the first match when only that is wanted. */
    method WalkFrom(p0: Node<T>, val: T, firstOnly: bool, ghost N: seq<Node<T>>, ghost C: seq<T>,
                    ghost m0: nat, ghost detached0: bool)
      requires Walk(p0, val, firstOnly, N, C, 0, m0, detached0)
      requires forall n <- nodes :: n in N
      modifies this, N
      ensures Valid() && forall n <- nodes :: n in N
      ensures contents == if firstOnly then RemoveFirst(C, val) else RemoveAllAsWritten(C, val)
    {
      var p, p1 := p0, p0;
      ghost var k: nat, m, detached := 0, m0, detached0;
      while p.HasNext()
        invariant p == p1 && Walk(p, val, firstOnly, N, C, k, m, detached)
        invariant forall n <- nodes :: n in N
        decreases |N| - k
      {
        var done: bool;
        p, p1, done, k, m, detached := WalkStep(p, val, firstOnly, N, C, k, m, detached);
        if done {
          return;
        }
      }
      assert C[..k + 1] == C && C[k + 1..] == [];
      SplitAt(contents, m);
    }

    /** Removes the first element equal to `val`, or, without `firstOnly`, every
        element the walk reaches while following a kept node; fails, changing
        nothing, on an empty list. A matching head is unlinked by moving `start`,
        but the walk then goes on from the detached head, so the matches right
        behind it stay (see `RemoveAllAsWritten`). */
    method Remove(val: T, firstOnly: bool) returns (ok: bool)
      requires Valid()
      modifies this, set n | n in nodes
      ensures Valid()
      ensures ok <==> old(contents) != []
      ensures !ok ==> contents == old(contents)
      ensures ok && firstOnly ==> contents == RemoveFirst(old(contents), val)
      ensures ok && !firstOnly ==> contents == RemoveAllAsWritten(old(contents), val)
      ensures forall n <- nodes :: n in old(nodes) || fresh(n)
    {
      if start == null {
        return false;
      }
      ghost var N, C := nodes, contents;
      var p: Node<T> := start;
      ghost var detached := false;
      if p.GetValue() == val {
        DropHead();
        if firstOnly {
          RemoveFirstAt(C, val, 0);
          return true;
        }
        detached := true;
      }
      WalkStart(p, val, firstOnly, N, C, detached);
      WalkFrom(p, val, firstOnly, N, C, if detached then 0 else 1, detached);
      return true;
    }

    /** Moves `start` past the head node, which is left as it is. */
    method DropHead()
      requires Valid() && start != null
      modifies this
      ensures Valid()
      ensures nodes == old(nodes)[1..] && contents == old(contents)[1..]
    {
      ChainNext(start, nodes, 0);
      start := start.GetNext();
      nodes, contents := nodes[1..], contents[1..];
    }

    /** Removes every element equal to `val`; fails, changing nothing, on an empty
        list. Unlike `Remove`, it first moves `start` past every matching head, so
        the walk then starts from a head that stays in the list. */
    method RemoveAll(val: T) returns (ok: bool)
      requires Valid()
      modifies this, set n | n in nodes
      ensures Valid()
      ensures ok <==> old(contents) != []
      ensures contents == if ok then Filter(old(contents), val) else old(contents)
      ensures forall n <- nodes :: n in old(nodes) || fresh(n)
    {
      if start == null {
        return false;
      }
      ghost var N0, C0, h := nodes, contents, 0;
      while start != null && start.GetValue() == val
        invariant Valid() && h <= |N0| && nodes == N0[h..]
        invariant Filter(contents, val) == Filter(C0, val)
        decreases |nodes|
      {
        FilterCons(contents, val);
        DropHead();
        h := h + 1;
      }
      if start == null {
        return true;
      }
      ghost var N, C := nodes, contents;
      WalkStart(start, val, false, N, C, false);
      WalkFrom(start, val, false, N, C, 1, false);
      RemoveAllHeadDiffers(C, val);
      return true;
    }

    /** The values of the list, in order, as a fresh sequence. */
    method ToList() returns (result: seq<T>)
      requires Valid()
      ensures result == contents
    {
      result := [];
      var p := start;
      ghost var k := 0;
      while p != null
        invariant 0 <= k <= |nodes|
        invariant p == if k < |nodes| then nodes[k] else null
        invariant result == contents[..k]
        decreases |nodes| - k
      {
        ChainNext(start, nodes, k);
        result := result + [p.GetValue()];
        p := p.GetNext();
        k := k + 1;
      }
    }
  }

  /** Inserting a value at any position and then removing the element at that
      position gives back the list it started from, whenever the list was not
      empty: within bounds the removal undoes the insertion, past the end both
      steps fail. On an empty list the value is stored whatever the position,
      and the removal fails: a one-element list keeps its element. */
  method InsertRemoveRoundTrip<T(==)>(l: LinkedList<T>, v: T, i: nat)
    requires l.Valid()
    modifies l, set n | n in l.nodes
    ensures l.Valid()
    ensures old(l.contents) != [] ==> l.contents == old(l.contents)
    ensures old(l.contents) == [] ==> l.contents == [v]
  {
    ghost var C := l.contents;
    var ok := l.InsertValueAtIndex(v, i);
    ghost var t := l.contents;
    ok := l.RemoveItemAtIndex(i);
    if i <= |C| {
      assert t == C[..i] + [v] + C[i..];
      assert t[..i] == C[..i] && t[i + 1..] == C[i..];
      SplitAt(C, i);
    }
  }
}

/** Worked scenarios: several calls in a row on one list, each read back
    through `ToList`. */
module Scenarios {
  import opened ListSpec
  import opened LinkedLists

  /** Appending 3, 1, 4, 1, 5 one at a time lists them in that order. */
  method AppendOneByOne() returns (listed: seq<int>)
    ensures listed == [3, 1, 4, 1, 5]
  {
    var l := new LinkedList<int>();
    l.AddToEnd(3);
    l.AddToEnd(1);
    l.AddToEnd(4);
    l.AddToEnd(1);
    l.AddToEnd(5);
    listed := l.ToList();
  }

  /** In 3, 1, 4, 1, 5 the first 1 is at index 1; removing the first 1 and then
      every 1 leaves 3, 4, 5. */
  method SearchThenRemove() returns (at: Result<nat>, afterFirst: seq<int>, afterAll: seq<int>)
    ensures at == Ok(1) && afterFirst == [3, 4, 1, 5] && afterAll == [3, 4, 5]
  {
    var l := new LinkedList<int>();
    var _ := l.AddAllToEnd([3, 1, 4, 1, 5]);
    at := l.Index(1);
    FirstOneAtOne(l.contents, at);
    afterFirst, afterAll := RemoveOnes(l);
  }

  /** On a list holding 3, 1, 4, 1, 5, removing the first 1 leaves 3, 4, 1, 5,
      and then removing every 1 leaves 3, 4, 5. */
  method RemoveOnes(l: LinkedList<int>) returns (afterFirst: seq<int>, afterAll: seq<int>)
    requires l.Valid() && l.contents == [3, 1, 4, 1, 5]
    modifies l, set n | n in l.nodes
    ensures afterFirst == [3, 4, 1, 5] && afterAll == [3, 4, 5]
  {
    RemoveFirstOne();
    var _ := l.Remove(1, true);
    afterFirst := l.ToList();
    RemoveEveryOne();
    var _ := l.Remove(1, false);
    afterAll := l.ToList();
  }

  /** The lowest index of 1 in 3, 1, 4, 1, 5 is 1. */
  lemma FirstOneAtOne(s: seq<int>, r: Result<nat>)
    requires s == [3, 1, 4, 1, 5]
    requires r.Ok? <==> 1 in s
    requires r.Ok? ==> r.value < |s| && s[r.value] == 1 && 1 !in s[..r.value]
    ensures r == Ok(1)
  {
    assert s[1] == 1;
  }

  /** Removing the first 1 from 3, 1, 4, 1, 5 takes out position 1. */
  lemma RemoveFirstOne()
    ensures RemoveFirst([3, 1, 4, 1, 5], 1) == [3, 4, 1, 5]
  {
    var s := [3, 1, 4, 1, 5];
    assert s[1] == 1 && 1 !in s[..1];
    RemoveFirstAt(s, 1, 1);
  }

  /** Removing every 1 from 3, 4, 1, 5 the way the list does leaves 3, 4, 5. */
  lemma RemoveEveryOne()
    ensures RemoveAllAsWritten([3, 4, 1, 5], 1) == [3, 4, 5]
  {
    var t := [3, 4, 1, 5];
    RemoveAllHeadDiffers(t, 1);
    FilterSnoc(t, [3, 4, 1], 5, 1);
    FilterSnoc([3, 4, 1], [3, 4], 1, 1);
    FilterSnoc([3, 4], [3], 4, 1);
    FilterSnoc([3], [], 3, 1);
  }

  /** Splicing 98, 99 in at index 1 of 10, 20, 30 gives 10, 98, 99, 20, 30. */
  method SpliceIntoMiddle() returns (listed: seq<int>)
    ensures listed == [10, 98, 99, 20, 30]
  {
    var l := new LinkedList<int>();
    var _ := l.AddAllToEnd([10, 20, 30]);
    var ok := l.InsertAllAtIndex([98, 99], 1);
    listed := l.ToList();
  }

  /** Removing the last element of 10, 20, 30 twice leaves 10; a third removal
      fails on the one remaining element and leaves it in place. */
  method RemoveLastRepeatedly() returns (second: seq<int>, third: bool, listed: seq<int>)
    ensures second == [10] && !third && listed == [10]
  {
    var l := new LinkedList<int>();
    var _ := l.AddAllToEnd([10, 20, 30]);
    var ok := l.RemoveLastItem();
    ok := l.RemoveLastItem();
    second := l.ToList();
    third := l.RemoveLastItem();
    listed := l.ToList();
  }

  /** A new list is empty, has no first element, and after appending one value
      lists just that value. */
  method EmptyThenAppend() returns (empty: bool, first: Result<int>, listed: seq<int>)
    ensures empty && first == Err && listed == [7]
  {
    var l := new LinkedList<int>();
    empty := l.IsEmpty();
    first := l.ItemAtStart();
    l.AddToEnd(7);
    listed := l.ToList();
  }
}
