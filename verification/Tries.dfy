/** Abstract byte tries: what a serialized BytesTrie stands for. */
module Tries {
  import opened Basics
  import opened TrieFormat

  /** An optional value for the bytes so far, then what may follow them. */
  datatype Trie = Trie(value: Option<int>, next: Next)
  datatype Next = End | Linear(units: seq<Byte>, child: Trie) | Branch(edges: seq<Edge>)
  datatype Edge = Edge(unit: Byte, child: Trie)

  datatype Entry = Entry(key: seq<Byte>, value: int)

  /** Edges ascend strictly, every path ends in a value, and no node is empty. */
  ghost predicate Ordered(t: Trie)
    decreases t
  {
    match t.next
    case End => t.value.Some?
    case Linear(units, child) => |units| >= 1 && Ordered(child)
    case Branch(edges) => |edges| >= 2 && OrderedEdges(edges)
  }

  ghost predicate OrderedEdges(edges: seq<Edge>)
    decreases edges
  {
    && (forall i, j :: 0 <= i < j < |edges| ==> edges[i].unit < edges[j].unit)
    && (forall i :: 0 <= i < |edges| ==> OrderedEdge(edges[i]))
  }

  ghost predicate OrderedEdge(e: Edge)
    decreases e
  {
    Ordered(e.child)
  }

  function Prefixed(p: seq<Byte>, es: seq<Entry>): (r: seq<Entry>)
    ensures |r| == |es|
    ensures forall i :: 0 <= i < |es| ==> r[i] == Entry(p + es[i].key, es[i].value)
  {
    seq(|es|, i requires 0 <= i < |es| => Entry(p + es[i].key, es[i].value))
  }

  /** All (key, value) pairs, in trie order. */
  function Entries(t: Trie): seq<Entry>
    decreases t
  {
    (if t.value.Some? then [Entry([], t.value.value)] else []) + NextEntries(t.next)
  }

  function NextEntries(next: Next): seq<Entry>
    decreases next
  {
    match next
    case End => []
    case Linear(units, child) => Prefixed(units, Entries(child))
    case Branch(edges) => EdgeEntries(edges)
  }

  function EdgeEntries(edges: seq<Edge>): seq<Entry>
    decreases edges
  {
    if edges == [] then []
    else EntriesOf(edges[0]) + EdgeEntries(edges[1..])
  }

  function EntriesOf(e: Edge): seq<Entry>
    decreases e
  {
    Prefixed([e.unit], Entries(e.child))
  }

  function FindEdge(edges: seq<Edge>, u: int): Option<Trie> {
    if edges == [] then None
    else if edges[0].unit == u then Some(edges[0].child)
    else FindEdge(edges[1..], u)
  }

  /** What is left of t after the input u, which need not be a byte. */
  function Step(t: Trie, u: int): Option<Trie> {
    match t.next
    case End => None
    case Linear(units, child) =>
      if units == [] || units[0] != u then None
      else if |units| == 1 then Some(child)
      else Some(Trie(None, Linear(units[1..], child)))
    case Branch(edges) => FindEdge(edges, u)
  }

  function Walk(t: Trie, s: seq<int>): Option<Trie>
    decreases |s|
  {
    if s == [] then Some(t)
    else match Step(t, s[0])
      case None => None
      case Some(child) => Walk(child, s[1..])
  }

  lemma {:induction false} WalkConcat(t: Trie, a: seq<int>, b: seq<int>)
    ensures Walk(t, a + b) == match Walk(t, a) case None => None case Some(c) => Walk(c, b)
    decreases |a|
  {
    if a == [] {
      assert a + b == b;
    } else {
      assert (a + b)[1..] == a[1..] + b;
      match Step(t, a[0])
      case None =>
      case Some(child) => WalkConcat(child, a[1..], b);
    }
  }

  lemma {:induction false} FindEdgeIsMember(edges: seq<Edge>, u: int)
    ensures match FindEdge(edges, u)
            case None => forall i :: 0 <= i < |edges| ==> edges[i].unit != u
            case Some(child) => exists i :: 0 <= i < |edges| && edges[i].unit == u && edges[i].child == child
  {
    if edges != [] && edges[0].unit != u {
      FindEdgeIsMember(edges[1..], u);
      match FindEdge(edges[1..], u)
      case None =>
        assert forall i :: 1 <= i < |edges| ==> edges[i] == edges[1..][i - 1];
      case Some(child) =>
        var i :| 0 <= i < |edges| - 1 && edges[1..][i].unit == u && edges[1..][i].child == child;
        assert edges[i + 1] == edges[1..][i];
    }
  }

  lemma StepKeepsOrder(t: Trie, u: int)
    requires Ordered(t)
    ensures Step(t, u).Some? ==> Ordered(Step(t, u).value)
  {
    match t.next
    case End =>
    case Linear(units, child) =>
    case Branch(edges) =>
      FindEdgeIsMember(edges, u);
      assert forall i :: 0 <= i < |edges| ==> OrderedEdge(edges[i]);
  }

  lemma {:induction false} WalkKeepsOrder(t: Trie, s: seq<int>)
    requires Ordered(t)
    ensures Walk(t, s).Some? ==> Ordered(Walk(t, s).value)
    decreases |s|
  {
    if s != [] {
      StepKeepsOrder(t, s[0]);
      match Step(t, s[0])
      case None =>
      case Some(child) => WalkKeepsOrder(child, s[1..]);
    }
  }

  lemma PrefixedHas(p: seq<Byte>, es: seq<Entry>, k: seq<Byte>, v: int)
    ensures Entry(p + k, v) in Prefixed(p, es) <==> Entry(k, v) in es
  {
    if Entry(p + k, v) in Prefixed(p, es) {
      var i :| 0 <= i < |es| && Prefixed(p, es)[i] == Entry(p + k, v);
      assert es[i].key == (p + es[i].key)[|p|..] == (p + k)[|p|..] == k;
    }
    if Entry(k, v) in es {
      var i :| 0 <= i < |es| && es[i] == Entry(k, v);
      assert Prefixed(p, es)[i] == Entry(p + k, v);
    }
  }

  lemma PrefixedStartsWith(p: seq<Byte>, es: seq<Entry>, e: Entry)
    requires e in Prefixed(p, es)
    ensures p <= e.key
    ensures p != [] ==> e.key != [] && e.key[0] == p[0]
  {
  }

  lemma {:induction false} EdgeMembers(edges: seq<Edge>, u: Byte, k: seq<Byte>, v: int)
    requires forall i, j :: 0 <= i < j < |edges| ==> edges[i].unit < edges[j].unit
    ensures Entry([u] + k, v) in EdgeEntries(edges) <==>
            FindEdge(edges, u).Some? && Entry(k, v) in Entries(FindEdge(edges, u).value)
  {
    if edges != [] {
      EdgeMembers(edges[1..], u, k, v);
      FindEdgeIsMember(edges[1..], u);
      var e := Entry([u] + k, v);
      assert e in EdgeEntries(edges) <==> e in EntriesOf(edges[0]) || e in EdgeEntries(edges[1..]);
      assert forall i :: 1 <= i < |edges| ==> edges[i] == edges[1..][i - 1];
      PrefixedHas([edges[0].unit], Entries(edges[0].child), k, v);
      if edges[0].unit != u && e in EntriesOf(edges[0]) {
        PrefixedStartsWith([edges[0].unit], Entries(edges[0].child), e);
        assert false;
      }
    }
  }

  lemma {:induction false} EdgeKeysAreNotEmpty(edges: seq<Edge>)
    ensures forall e :: e in EdgeEntries(edges) ==> e.key != []
  {
    if edges != [] {
      EdgeKeysAreNotEmpty(edges[1..]);
    }
  }

  lemma LinearMembers(units: seq<Byte>, child: Trie, u: Byte, k: seq<Byte>, v: int)
    requires |units| >= 1
    ensures Entry([u] + k, v) in Prefixed(units, Entries(child)) <==>
            units[0] == u && Entry(k, v) in Prefixed(units[1..], Entries(child))
  {
    var es := Entries(child);
    assert units == [units[0]] + units[1..];
    if Entry([u] + k, v) in Prefixed(units, es) {
      var i :| 0 <= i < |es| && Prefixed(units, es)[i] == Entry([u] + k, v);
      assert ([u] + k)[0] == units[0];
      assert k == ([u] + k)[1..] == (units + es[i].key)[1..] == units[1..] + es[i].key;
      assert Prefixed(units[1..], es)[i] == Entry(k, v);
    }
    if units[0] == u && Entry(k, v) in Prefixed(units[1..], es) {
      var i :| 0 <= i < |es| && Prefixed(units[1..], es)[i] == Entry(k, v);
      assert [u] + k == units + es[i].key;
      assert Prefixed(units, es)[i] == Entry([u] + k, v);
    }
  }

  /** The entries that continue with u are the entries of Step(t, u). */
  lemma StepMembers(t: Trie, u: Byte, k: seq<Byte>, v: int)
    requires Ordered(t)
    ensures Entry([u] + k, v) in Entries(t) <==>
            Step(t, u).Some? && Entry(k, v) in Entries(Step(t, u).value)
  {
    assert ([u] + k) != [];
    assert Entry([u] + k, v) in Entries(t) <==> Entry([u] + k, v) in NextEntries(t.next);
    match t.next
    case End =>
    case Linear(units, child) =>
      LinearMembers(units, child, u, k, v);
      if |units| == 1 {
        assert units[1..] == [];
        assert forall i :: 0 <= i < |Entries(child)| ==> [] + Entries(child)[i].key == Entries(child)[i].key;
        assert Prefixed([], Entries(child)) == Entries(child);
      } else {
        assert Entries(Trie(None, Linear(units[1..], child))) == Prefixed(units[1..], Entries(child));
      }
    case Branch(edges) => EdgeMembers(edges, u, k, v);
  }

  /** The entries that continue with s are the entries of Walk(t, s). */
  lemma {:induction false} WalkMembers(t: Trie, s: seq<Byte>, k: seq<Byte>, v: int)
    requires Ordered(t)
    ensures Entry(s + k, v) in Entries(t) <==> Walk(t, s).Some? && Entry(k, v) in Entries(Walk(t, s).value)
    decreases |s|
  {
    if s == [] {
      assert s + k == k;
    } else {
      assert s + k == [s[0]] + (s[1..] + k);
      StepMembers(t, s[0], s[1..] + k, v);
      StepKeepsOrder(t, s[0]);
      match Step(t, s[0])
      case None =>
      case Some(child) => WalkMembers(child, s[1..], k, v);
    }
  }

  lemma EmptyKey(t: Trie, v: int)
    requires Ordered(t)
    ensures Entry([], v) in Entries(t) <==> t.value == Some(v)
  {
    match t.next
    case End =>
    case Linear(units, child) =>
      if Entry([], v) in Prefixed(units, Entries(child)) {
        PrefixedStartsWith(units, Entries(child), Entry([], v));
      }
    case Branch(edges) => EdgeKeysAreNotEmpty(edges);
  }

  /** Every well-formed trie has an entry, and one with a non-empty key unless it ends here. */
  lemma {:induction false} SomeEntry(t: Trie) returns (e: Entry)
    requires Ordered(t)
    ensures e in Entries(t)
    ensures t.next.End? <==> e.key == []
    decreases t
  {
    match t.next
    case End =>
      e := Entry([], t.value.value);
      assert Entries(t)[0] == e;
    case Linear(units, child) =>
      var c := SomeEntry(child);
      e := Entry(units + c.key, c.value);
      PrefixedHas(units, Entries(child), c.key, c.value);
    case Branch(edges) =>
      assert OrderedEdge(edges[0]);
      var c := SomeEntry(edges[0].child);
      e := Entry([edges[0].unit] + c.key, c.value);
      PrefixedHas([edges[0].unit], Entries(edges[0].child), c.key, c.value);
      assert e in EntriesOf(edges[0]);
      assert e in EdgeEntries(edges);
  }

  lemma EndHasNoLongerKey(t: Trie, e: Entry)
    requires Ordered(t) && t.next.End? && e in Entries(t)
    ensures e.key == []
  {
  }

  /** Walking decides prefixes, keys and whether a key can be extended. */
  lemma WalkDecides(t: Trie, s: seq<Byte>)
    requires Ordered(t)
    ensures Walk(t, s).Some? <==> exists e :: e in Entries(t) && s <= e.key
    ensures Walk(t, s).Some? ==> forall v :: Walk(t, s).value.value == Some(v) <==> Entry(s, v) in Entries(t)
    ensures Walk(t, s).Some? ==>
      (Walk(t, s).value.next.End? <==> forall e :: e in Entries(t) && s <= e.key ==> e.key == s)
  {
    WalkKeepsOrder(t, s);
    forall e | e in Entries(t) && s <= e.key
      ensures Walk(t, s).Some? && Entry(e.key[|s|..], e.value) in Entries(Walk(t, s).value)
    {
      assert e.key == s + e.key[|s|..];
      WalkMembers(t, s, e.key[|s|..], e.value);
    }
    if Walk(t, s).Some? {
      var c := Walk(t, s).value;
      var rest := SomeEntry(c);
      WalkMembers(t, s, rest.key, rest.value);
      forall v ensures c.value == Some(v) <==> Entry(s, v) in Entries(t) {
        EmptyKey(c, v);
        WalkMembers(t, s, [], v);
        assert s + [] == s;
      }
      if c.next.End? {
        forall e | e in Entries(t) && s <= e.key ensures e.key == s {
          EndHasNoLongerKey(c, Entry(e.key[|s|..], e.value));
        }
      } else {
        assert Entry(s + rest.key, rest.value) in Entries(t);
      }
    }
  }

  // ---------- order ----------

  /** memcmp order, a prefix before its extensions. */
  predicate Less(a: seq<Byte>, b: seq<Byte>) {
    b != [] && (a == [] || a[0] < b[0] || (a[0] == b[0] && Less(a[1..], b[1..])))
  }

  ghost predicate Sorted(es: seq<Entry>) {
    forall i, j :: 0 <= i < j < |es| ==> Less(es[i].key, es[j].key)
  }

  lemma {:induction false} LessPrefixed(p: seq<Byte>, a: seq<Byte>, b: seq<Byte>)
    ensures Less(p + a, p + b) == Less(a, b)
  {
    if p == [] {
      assert p + a == a && p + b == b;
    } else {
      assert (p + a)[1..] == p[1..] + a && (p + b)[1..] == p[1..] + b;
      LessPrefixed(p[1..], a, b);
    }
  }

  lemma PrefixedSorted(p: seq<Byte>, es: seq<Entry>)
    requires Sorted(es)
    ensures Sorted(Prefixed(p, es))
  {
    forall i, j | 0 <= i < j < |es| ensures Less(Prefixed(p, es)[i].key, Prefixed(p, es)[j].key) {
      LessPrefixed(p, es[i].key, es[j].key);
    }
  }

  lemma {:induction false} EdgeFirstUnits(edges: seq<Edge>, e: Entry)
    requires e in EdgeEntries(edges)
    ensures e.key != [] && exists i :: 0 <= i < |edges| && edges[i].unit == e.key[0]
  {
    if edges != [] {
      if e in EdgeEntries(edges[1..]) {
        EdgeFirstUnits(edges[1..], e);
        var i :| 0 <= i < |edges| - 1 && edges[1..][i].unit == e.key[0];
        assert edges[i + 1].unit == e.key[0];
      }
    }
  }

  lemma {:induction false} EdgeSorted(e: Edge)
    requires OrderedEdge(e)
    ensures Sorted(EntriesOf(e))
    decreases e
  {
    EntriesSorted(e.child);
    PrefixedSorted([e.unit], Entries(e.child));
  }

  lemma {:induction false} EdgesSorted(edges: seq<Edge>)
    requires OrderedEdges(edges)
    ensures Sorted(EdgeEntries(edges))
    decreases edges
  {
    if edges != [] {
      var here := EntriesOf(edges[0]);
      var rest := EdgeEntries(edges[1..]);
      EdgeSorted(edges[0]);
      EdgesSorted(edges[1..]);
      forall e | e in rest ensures e.key != [] && edges[0].unit < e.key[0] {
        EdgeFirstUnits(edges[1..], e);
      }
      SortedConcat(here, rest);
    }
  }

  lemma SortedConcat(a: seq<Entry>, b: seq<Entry>)
    requires Sorted(a) && Sorted(b)
    requires forall i, j :: 0 <= i < |a| && 0 <= j < |b| ==> Less(a[i].key, b[j].key)
    ensures Sorted(a + b)
  {
  }

  /** Trie order is strictly ascending key order. */
  lemma {:induction false} EntriesSorted(t: Trie)
    requires Ordered(t)
    ensures Sorted(Entries(t))
    decreases t
  {
    match t.next
    case End =>
    case Linear(units, child) =>
      EntriesSorted(child);
      PrefixedSorted(units, Entries(child));
    case Branch(edges) =>
      EdgesSorted(edges);
      EdgeKeysAreNotEmpty(edges);
  }
}
