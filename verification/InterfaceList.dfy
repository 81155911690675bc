/** The doubly linked list of network interfaces of interface.c, kept in name order. */
module InterfaceList {

  const IF_NAMESIZE := 16

  // ---------------------------------------------------------------------------
  // The order of strcmp
  // ---------------------------------------------------------------------------

  predicate Less(a: string, b: string) {
    b != [] && (a == [] || a[0] < b[0] || (a[0] == b[0] && Less(a[1..], b[1..])))
  }

  /** strcmp */
  function Compare(a: string, b: string): int {
    if a == b then 0 else if Less(a, b) then -1 else 1
  }

  /** The strings agree up to `i`, where the first ends or has the smaller character. */
  predicate DifferAt(a: string, b: string, i: int) {
    0 <= i <= |a| && i < |b| && a[..i] == b[..i] && (i < |a| ==> a[i] < b[i])
  }

  /** The order is decided at the first position where the strings differ. */
  lemma {:induction false} LessIff(a: string, b: string)
    ensures Less(a, b) <==> exists i :: DifferAt(a, b, i)
  {
    if a == [] || b == [] || a[0] != b[0] {
      assert DifferAt(a, b, 0) <==> Less(a, b);
      assert forall i :: i > 0 && DifferAt(a, b, i) ==> a[..i][0] == b[..i][0];
    } else {
      LessIff(a[1..], b[1..]);
      if i :| DifferAt(a[1..], b[1..], i) {
        assert a[..i + 1] == [a[0]] + a[1..][..i] && b[..i + 1] == [b[0]] + b[1..][..i];
        assert DifferAt(a, b, i + 1);
      }
      if i :| DifferAt(a, b, i) {
        assert a[1..][..i - 1] == a[..i][1..] && b[1..][..i - 1] == b[..i][1..];
        assert DifferAt(a[1..], b[1..], i - 1);
      }
    }
  }

  lemma {:induction false} LessIrreflexive(a: string)
    ensures !Less(a, a)
  {
    if a != [] { LessIrreflexive(a[1..]); }
  }

  lemma {:induction false} LessTotal(a: string, b: string)
    ensures Less(a, b) || a == b || Less(b, a)
  {
    if a != [] && b != [] {
      LessTotal(a[1..], b[1..]);
      if a[0] == b[0] && a[1..] == b[1..] {
        assert a == [a[0]] + a[1..] && b == [b[0]] + b[1..];
      }
    }
  }

  lemma {:induction false} LessTransitive(a: string, b: string, c: string)
    requires Less(a, b) && Less(b, c)
    ensures Less(a, c)
  {
    if a != [] && a[0] == b[0] == c[0] { LessTransitive(a[1..], b[1..], c[1..]); }
  }

  ghost predicate Sorted(names: seq<string>) {
    forall i, j :: 0 <= i < j < |names| ==> Less(names[i], names[j])
  }

  /** A strictly sorted list is determined by its elements. */
  lemma {:induction false} SortedUnique(a: seq<string>, b: seq<string>)
    requires Sorted(a) && Sorted(b)
    requires forall x :: x in a <==> x in b
    ensures a == b
    decreases |a|
  {
    hide Less;
    if a == [] {
      assert forall i :: 0 <= i < |b| ==> b[i] in b;
    } else {
      assert a[0] in b;
      assert b[0] in a;
      SameHead(a, b);
      forall x ensures x in a[1..] <==> x in b[1..] {
        TailMembers(a, x);
        TailMembers(b, x);
      }
      SortedUnique(a[1..], b[1..]);
      assert a == [a[0]] + a[1..] && b == [b[0]] + b[1..];
    }
  }

  lemma TailMembers(a: seq<string>, x: string)
    requires Sorted(a) && a != []
    ensures x in a[1..] <==> x in a && x != a[0]
  {
    hide Less;
    LessIrreflexive(a[0]);
    assert a == [a[0]] + a[1..];
    if x in a[1..] {
      var i :| 0 <= i < |a[1..]| && a[1..][i] == x;
      assert a[i + 1] == x && Less(a[0], a[i + 1]);
    }
  }

  lemma SameHead(a: seq<string>, b: seq<string>)
    requires Sorted(a) && Sorted(b) && a != [] && b != [] && a[0] in b && b[0] in a
    ensures a[0] == b[0]
  {
    hide Less;
    var i :| 0 <= i < |b| && b[i] == a[0];
    var j :| 0 <= j < |a| && a[j] == b[0];
    if i > 0 && j > 0 {
      assert Less(b[0], b[i]) && Less(a[0], a[j]);
      LessTransitive(a[0], b[0], a[0]);
      LessIrreflexive(a[0]);
    }
  }

  function Inserted<T>(s: seq<T>, k: nat, x: T): seq<T>
    requires k <= |s|
  {
    s[..k] + [x] + s[k..]
  }

  /** A name greater than those before it and less than those behind it is new, and the
      list stays sorted. */
  lemma InsertSorted(names: seq<string>, k: nat, name: string)
    requires Sorted(names) && k <= |names|
    requires k > 0 ==> Compare(names[k - 1], name) < 0
    requires forall i :: k <= i < |names| ==> Less(name, names[i])
    ensures name !in names
    ensures Sorted(Inserted(names, k, name))
    ensures forall x :: x in Inserted(names, k, name) <==> x == name || x in names
  {
    hide Less;
    LessIrreflexive(name);
    forall i | 0 <= i < k ensures Less(names[i], name) {
      if i < k - 1 { LessTransitive(names[i], names[k - 1], name); }
    }
  }

  // ---------------------------------------------------------------------------
  // The list
  // ---------------------------------------------------------------------------

  class Interface {
    const name: string
    var next: Interface?
    var prev: Interface?

    constructor (name: string)
      ensures this.name == name && next == null && prev == null
    {
      this.name, next, prev := name, null, null;
    }
  }

  function Names(nodes: seq<Interface>): (names: seq<string>)
    ensures |names| == |nodes|
  {
    seq(|nodes|, i requires 0 <= i < |nodes| => nodes[i].name)
  }

  class List {
    var head: Interface?
    var tail: Interface?
    ghost var nodes: seq<Interface>

    /** Forward and backward links agree with the ghost list of nodes. */
    ghost predicate Linked()
      reads this, nodes
    {
      && (forall i, j :: 0 <= i < j < |nodes| ==> nodes[i] != nodes[j])
      && head == (if nodes == [] then null else nodes[0])
      && tail == (if nodes == [] then null else nodes[|nodes| - 1])
      && (forall i {:trigger nodes[i].prev} :: 0 <= i < |nodes| ==> nodes[i].prev == if i == 0 then null else nodes[i - 1])
      && (forall i {:trigger nodes[i].next} :: 0 <= i < |nodes| ==>
            nodes[i].next == if i == |nodes| - 1 then null else nodes[i + 1])
    }

    ghost predicate Valid()
      reads this, nodes
    {
      Linked() && Sorted(Names(nodes))
    }

    constructor ()
      ensures Valid() && nodes == []
    {
      head, tail, nodes := null, null, [];
    }

    /** The walk from the tail: the position behind the last name that is not greater, and
        whether that name is the one sought. */
    method Find(name: string) returns (found: Interface?, ghost k: nat)
      requires Valid()
      ensures k <= |nodes|
      ensures found == if k == 0 then null else nodes[k - 1]
      ensures found != null ==> Compare(found.name, name) <= 0
      ensures forall i :: k <= i < |nodes| ==> Less(name, nodes[i].name)
    {
      found, k := tail, |nodes|;
      while found != null
        invariant k <= |nodes| && found == if k == 0 then null else nodes[k - 1]
        invariant forall i :: k <= i < |nodes| ==> Less(name, nodes[i].name)
        decreases k
      {
        var cmp := Compare(found.name, name);
        if cmp <= 0 {
          return;
        }
        LessTotal(found.name, name);
        found, k := found.prev, k - 1;
      }
    }

    /** Puts a node behind the first k. */
    method Link(node: Interface, found: Interface?, ghost k: nat)
      requires Linked() && node !in nodes && node.next == null && node.prev == null
      requires k <= |nodes| && found == if k == 0 then null else nodes[k - 1]
      modifies this, nodes, node
      ensures Linked() && nodes == Inserted(old(nodes), k, node)
    {
      if found == null {
        if head == null {
          tail := node;
        } else {
          node.next := head;
          head.prev := node;
        }
        head := node;
      } else {
        node.prev := found;
        if found.next == null {
          tail := node;
        } else {
          node.next := found.next;
          found.next.prev := node;
        }
        found.next := node;
      }
      nodes := Inserted(nodes, k, node);
    }

    /** interface_list_add: the node with that name, which is put in its place if there was
        none. */
    method Add(name: string) returns (node: Interface)
      requires Valid() && |name| < IF_NAMESIZE
      modifies this, nodes
      ensures Valid() && node in nodes && node.name == name
      ensures name in old(Names(nodes)) ==> nodes == old(nodes)
      ensures name !in old(Names(nodes)) ==> fresh(node)
      ensures name !in old(Names(nodes)) ==>
                exists k :: 0 <= k <= |old(nodes)| && nodes == Inserted(old(nodes), k, node)
      ensures forall x :: x in Names(nodes) <==> x == name || x in old(Names(nodes))
    {
      hide Less;
      var found; ghost var k;
      found, k := Find(name);
      if found != null && Compare(found.name, name) == 0 {
        assert Names(nodes)[k - 1] == name;
        return found;
      }
      ghost var before := Names(nodes);
      node := new Interface(name);
      Link(node, found, k);
      InsertSorted(before, k, name);
      assert Names(nodes) == Inserted(before, k, name);
    }
  }

  /** Adding names one after the other: the list holds exactly those names, in order. */
  method AddAll(list: List, names: seq<string>)
    requires list.Valid() && list.nodes == []
    requires forall i :: 0 <= i < |names| ==> |names[i]| < IF_NAMESIZE
    modifies list
    ensures list.Valid()
    ensures forall x :: x in Names(list.nodes) <==> x in names
  {
    for i := 0 to |names|
      invariant list.Valid() && fresh(list.nodes)
      invariant forall x :: x in Names(list.nodes) <==> x in names[..i]
    {
      assert names[..i + 1] == names[..i] + [names[i]];
      var node := list.Add(names[i]);
    }
    assert names[..|names|] == names;
  }
}
