/** The response object and its list of intermediate lines on the heap: insertion at the head
    while lines arrive, reversal in place before the list is handed over, and release. */
module ResponseList {
  import opened CText

  /** `malloc` and `free`: the objects allocated and not released yet. */
  class Heap {
    ghost var live: set<object>

    constructor ()
      ensures live == {}
    {
      live := {};
    }

    method Malloc(o: object)
      requires o !in live
      modifies this
      ensures live == old(live) + {o}
    {
      live := live + {o};
    }

    /** Nothing is released twice. */
    method Free(o: object)
      requires o in live
      modifies this
      ensures live == old(live) - {o}
    {
      live := live - {o};
    }

    /** A node is read only while it is live. */
    method Next(n: ATLine) returns (next: ATLine?)
      requires n in live
      ensures next == n.next
    {
      next := n.next;
    }

    method TextOf(n: ATLine) returns (text: Text)
      requires n in live
      ensures text == n.text
    {
      text := n.text;
    }
  }

  /** A string that `strdup` has allocated. */
  class Text {
    const chars: string

    constructor (chars: string)
      ensures this.chars == chars
    {
      this.chars := chars;
    }
  }

  function Chars(ts: seq<Text>): (ls: seq<string>)
    ensures |ls| == |ts|
  {
    if ts == [] then [] else Chars(ts[..|ts| - 1]) + [Last(ts).chars]
  }

  lemma CharsSnoc(ts: seq<Text>, t: Text)
    ensures Chars(ts + [t]) == Chars(ts) + [t.chars]
  {
    assert (ts + [t])[..|ts|] == ts;
  }

  class ATLine {
    const text: Text
    var next: ATLine?

    constructor (text: Text, next: ATLine?)
      ensures this.text == text && this.next == next
    {
      this.text, this.next := text, next;
    }
  }

  /** Two nodes that share neither place nor string. */
  ghost predicate Apart(nodes: seq<ATLine>, i: nat, j: nat)
    requires i < |nodes| && j < |nodes|
  {
    nodes[i] != nodes[j] && nodes[i].text != nodes[j].text
  }

  ghost predicate AllApart(nodes: seq<ATLine>)
  {
    forall i, j {:trigger Apart(nodes, i, j)} :: 0 <= i < j < |nodes| ==> Apart(nodes, i, j)
  }

  ghost predicate Differ(ts: seq<Text>, i: nat, j: nat)
    requires i < |ts| && j < |ts|
  {
    ts[i] != ts[j]
  }

  ghost predicate Distinct(ts: seq<Text>)
  {
    forall i, j {:trigger Differ(ts, i, j)} :: 0 <= i < j < |ts| ==> Differ(ts, i, j)
  }

  lemma DistinctSnoc(ts: seq<Text>, t: Text)
    ensures Distinct(ts + [t]) <==> Distinct(ts) && t !in ts
  {
    var all := ts + [t];
    if Distinct(all) {
      forall i, j | 0 <= i < j < |ts| ensures Differ(ts, i, j) { assert Differ(all, i, j); }
      forall i | 0 <= i < |ts| ensures ts[i] != t { assert Differ(all, i, |ts|); }
    }
    if Distinct(ts) && t !in ts {
      forall i, j | 0 <= i < j < |all| ensures Differ(all, i, j) { assert j < |ts| ==> Differ(ts, i, j); }
    }
  }

  ghost predicate Linked(nodes: seq<ATLine>, i: nat)
    requires i < |nodes| - 1
    reads nodes
  {
    nodes[i].next == nodes[i + 1]
  }

  ghost predicate LinkedBack(nodes: seq<ATLine>, i: nat)
    requires 0 < i < |nodes|
    reads nodes
  {
    nodes[i].next == nodes[i - 1]
  }

  /** The list starting at `head` runs through `nodes` and ends. */
  ghost predicate Chain(head: ATLine?, nodes: seq<ATLine>)
    reads nodes
  {
    (if nodes == [] then head == null else head == nodes[0] && Last(nodes).next == null) &&
    (forall i {:trigger Linked(nodes, i)} :: 0 <= i < |nodes| - 1 ==> Linked(nodes, i)) && AllApart(nodes)
  }

  lemma ApartFrom(nodes: seq<ATLine>, k: nat)
    requires AllApart(nodes) && k < |nodes|
    ensures forall i :: 0 <= i < |nodes| && i != k ==> nodes[i] != nodes[k] && nodes[i].text != nodes[k].text
  {
    forall i | 0 <= i < |nodes| && i != k ensures nodes[i] != nodes[k] && nodes[i].text != nodes[k].text {
      assert if i < k then Apart(nodes, i, k) else Apart(nodes, k, i);
    }
  }

  lemma ApartCons(n: ATLine, nodes: seq<ATLine>)
    requires AllApart(nodes) && forall m :: m in nodes ==> m != n && m.text != n.text
    ensures AllApart([n] + nodes)
  {
    var all := [n] + nodes;
    forall i, j | 0 <= i < j < |all| ensures Apart(all, i, j) {
      assert all[j] == nodes[j - 1] && nodes[j - 1] in nodes;
      if i > 0 { assert all[i] == nodes[i - 1] && Apart(nodes, i - 1, j - 1); }
    }
  }

  lemma ChainCons(n: ATLine, head: ATLine?, nodes: seq<ATLine>)
    requires Chain(head, nodes) && n.next == head && forall m :: m in nodes ==> m != n && m.text != n.text
    ensures Chain(n, [n] + nodes)
  {
    ApartCons(n, nodes);
    var all := [n] + nodes;
    forall i | 0 <= i < |all| - 1 ensures Linked(all, i) {
      if i > 0 { assert Linked(nodes, i - 1); }
    }
  }

  lemma ApartReverse(nodes: seq<ATLine>)
    requires AllApart(nodes)
    ensures AllApart(Reverse(nodes))
  {
    var rs := Reverse(nodes);
    forall i | 0 <= i < |nodes| ensures rs[i] == nodes[|nodes| - 1 - i] { ReverseAt(nodes, i); }
    forall i, j | 0 <= i < j < |rs| ensures Apart(rs, i, j) {
      assert Apart(nodes, |nodes| - 1 - j, |nodes| - 1 - i);
    }
  }

  ghost predicate Mirrors(rs: seq<ATLine>, nodes: seq<ATLine>, i: nat)
    requires |rs| == |nodes| && i < |nodes|
  {
    rs[i] == nodes[|nodes| - 1 - i]
  }

  lemma ChainMirrored(head: ATLine?, nodes: seq<ATLine>, rs: seq<ATLine>)
    requires AllApart(rs) && head == (if nodes == [] then null else Last(nodes)) && |rs| == |nodes|
    requires forall i {:trigger Mirrors(rs, nodes, i)} :: 0 <= i < |nodes| ==> Mirrors(rs, nodes, i)
    requires nodes != [] ==> nodes[0].next == null
    requires forall i {:trigger LinkedBack(nodes, i)} :: 0 < i < |nodes| ==> LinkedBack(nodes, i)
    ensures Chain(head, rs)
  {
    if nodes != [] {
      assert Mirrors(rs, nodes, 0) && Mirrors(rs, nodes, |nodes| - 1);
    }
    forall i | 0 <= i < |nodes| - 1 ensures Linked(rs, i) {
      assert LinkedBack(nodes, |nodes| - 1 - i) && Mirrors(rs, nodes, i) && Mirrors(rs, nodes, i + 1);
    }
  }

  lemma ChainReverse(head: ATLine?, nodes: seq<ATLine>)
    requires AllApart(nodes) && head == (if nodes == [] then null else Last(nodes))
    requires nodes != [] ==> nodes[0].next == null
    requires forall i {:trigger LinkedBack(nodes, i)} :: 0 < i < |nodes| ==> LinkedBack(nodes, i)
    ensures Chain(head, Reverse(nodes))
  {
    ApartReverse(nodes);
    forall i | 0 <= i < |nodes| ensures Mirrors(Reverse(nodes), nodes, i) { ReverseAt(nodes, i); }
    ChainMirrored(head, nodes, Reverse(nodes));
  }

  ghost function LinesOf(nodes: seq<ATLine>): (ls: seq<string>)
    ensures |ls| == |nodes|
  {
    if nodes == [] then [] else [nodes[0].text.chars] + LinesOf(nodes[1..])
  }

  lemma {:induction false} LinesOfConcat(a: seq<ATLine>, b: seq<ATLine>)
    ensures LinesOf(a + b) == LinesOf(a) + LinesOf(b)
  {
    if a == [] {
      assert a + b == b;
    } else {
      assert (a + b)[1..] == a[1..] + b;
      LinesOfConcat(a[1..], b);
    }
  }

  lemma {:induction false} LinesOfReverse(nodes: seq<ATLine>)
    ensures LinesOf(Reverse(nodes)) == Reverse(LinesOf(nodes))
  {
    if nodes != [] {
      LinesOfReverse(nodes[1..]);
      LinesOfConcat(Reverse(nodes[1..]), [nodes[0]]);
    }
  }

  lemma {:induction false} ReverseAt<T>(s: seq<T>, i: nat)
    requires i < |s|
    ensures Reverse(s)[i] == s[|s| - 1 - i]
  {
    if i < |s| - 1 {
      ReverseAt(s[1..], i);
    }
  }

  /** The nodes and their strings. */
  ghost function Parts(nodes: seq<ATLine>): set<object>
  {
    (set n: object | n in nodes) + set n: ATLine | n in nodes :: n.text as object
  }

  /** The same, in the order in which they are released. */
  function PartList(nodes: seq<ATLine>): seq<object>
  {
    if nodes == [] then [] else PartList(nodes[..|nodes| - 1]) + [Last(nodes).text, Last(nodes)]
  }

  lemma PartsStep(nodes: seq<ATLine>, k: nat)
    requires k < |nodes|
    ensures Parts(nodes[..k + 1]) == Parts(nodes[..k]) + {nodes[k].text} + {nodes[k]}
    ensures AllApart(nodes) ==> nodes[k] !in Parts(nodes[..k]) && nodes[k].text !in Parts(nodes[..k])
    ensures PartList(nodes[..k + 1]) == PartList(nodes[..k]) + [nodes[k].text, nodes[k]]
  {
    assert nodes[..k + 1] == nodes[..k] + [nodes[k]];
    assert nodes[..k + 1][..k] == nodes[..k];
    if AllApart(nodes) { ApartFrom(nodes, k); }
  }

  lemma PartsCons(n: ATLine, nodes: seq<ATLine>)
    ensures Parts([n] + nodes) == Parts(nodes) + {n.text, n}
  {
  }

  class ATResponse {
    var success: bool
    var final: Text?
    var head: ATLine?
    ghost var nodes: seq<ATLine>
    /** The strings of final lines that a later one has replaced: nobody can release them. */
    ghost var lost: seq<Text>
    /** What has been allocated for this response. */
    const heap: Heap

    ghost predicate Valid()
      reads this`head, this`nodes, nodes
    {
      Chain(head, nodes)
    }

    /** The string of the final line is no node's. */
    ghost predicate OwnFinal(n: ATLine)
      reads this`final
    {
      n.text != final
    }

    /** An object is live if it is part of the response or lost, and it is not both. */
    ghost predicate Placed(x: object)
      reads this`final, this`nodes, this`lost, heap
    {
      (x in heap.live <==> x in Owned() || x in Lost()) && !(x in Owned() && x in Lost())
    }

    /** What is live are the parts of the response and the lost strings, each of them once. */
    ghost predicate Accounted()
      reads this`final, this`nodes, this`lost, heap
    {
      (forall x {:trigger Placed(x)} :: x in heap.live + Owned() + Lost() ==> Placed(x)) &&
      (forall n {:trigger OwnFinal(n)} :: n in nodes ==> OwnFinal(n)) &&
      Distinct(lost)
    }

    /** The same as an equation of sets. */
    ghost predicate LiveIs()
      reads this`final, this`nodes, this`lost, heap
    {
      heap.live == Owned() + Lost() && Owned() !! Lost() && (forall n :: n in nodes ==> n.text != final) &&
      Distinct(lost)
    }

    lemma AccountedMeans()
      ensures Accounted() <==> LiveIs()
    {
      if Accounted() {
        assert forall x :: x in heap.live + Owned() + Lost() ==> Placed(x);
        assert forall n :: n in nodes ==> OwnFinal(n);
      }
    }

    ghost function Lost(): set<object>
      reads this`lost
    {
      set t: object | t in lost
    }

    /** The lines of all final strings not released: those lost and the one stored. */
    ghost function FinalLines(): seq<string>
      reads this`final, this`lost
    {
      Chars(lost) + if final == null then [] else [final.chars]
    }

    /** The lines in the order in which the list holds them. */
    ghost function Lines(): seq<string>
      reads this`nodes
    {
      LinesOf(nodes)
    }

    /** The final line, if there is one. */
    ghost function FinalLine(): Option<string>
      reads this`final
    {
      if final == null then None else Some(final.chars)
    }

    /** `at_response_new`. */
    constructor ()
      ensures Valid() && Accounted() && fresh(heap)
      ensures nodes == [] && !success && final == null && lost == []
    {
      success, final, head, nodes, lost := false, null, null, [], [];
      heap := new Heap();
      new;
      heap.Malloc(this);
      AccountedMeans();
    }

    /** The objects a response is made of. */
    ghost function Owned(): set<object>
      reads this`final, this`nodes
    {
      {this} + Parts(nodes) + if final == null then {} else {final}
    }

    method NewNode(line: string) returns (n: ATLine)
      requires Accounted()
      modifies heap
      ensures fresh(n) && fresh(n.text) && n.next == head && n.text.chars == line
      ensures heap.live == old(heap.live) + {n, n.text}
    {
      var t := new Text(line);
      heap.Malloc(t);
      n := new ATLine(t, head);
      heap.Malloc(n);
    }

    /** `addIntermediate`: at the head, so the list is in reverse order of arrival. */
    method AddIntermediate(line: string)
      requires Valid() && Accounted()
      modifies this`head, this`nodes, heap
      ensures Valid() && Accounted() && nodes != [] && fresh(nodes[0])
      ensures nodes == [nodes[0]] + old(nodes) && Lines() == [line] + old(Lines())
    {
      AccountedMeans();
      var n := NewNode(line);
      ChainCons(n, head, nodes);
      head := n;
      nodes := [n] + nodes;
      assert nodes[1..] == old(nodes);
      PartsCons(n, old(nodes));
      assert Owned() == old(Owned()) + {n, n.text};
      AccountedMeans();
    }

    /** `handleFinalResponse`: the string of an earlier final line is not released. */
    method SetFinal(line: string)
      requires Valid() && Accounted()
      modifies this`final, this`lost, heap
      ensures Valid() && Accounted() && FinalLine() == Some(line)
      ensures FinalLines() == old(FinalLines()) + [line]
    {
      AccountedMeans();
      if final == null {
        StoreFirst(line);
      } else {
        CharsSnoc(lost, final);
        Replace(line);
      }
      AccountedMeans();
    }

    method StoreFirst(line: string)
      requires Valid() && LiveIs() && final == null
      modifies this`final, heap
      ensures Valid() && LiveIs() && final != null && final.chars == line
    {
      final := new Text(line);
      heap.Malloc(final);
    }

    method Replace(line: string)
      requires Valid() && LiveIs() && final != null
      modifies this`final, this`lost, heap
      ensures Valid() && LiveIs() && final != null && final.chars == line && lost == old(lost) + [old(final)]
    {
      DistinctSnoc(lost, final);
      lost := lost + [final];
      final := new Text(line);
      heap.Malloc(final);
    }

    /** `reverseIntermediates`: the same nodes, linked the other way round. */
    method ReverseIntermediates()
      requires Valid() && Accounted()
      modifies this`head, this`nodes, nodes
      ensures Valid() && Accounted() && nodes == Reverse(old(nodes))
      ensures Lines() == Reverse(old(Lines()))
    {
      AccountedMeans();
      Relink();
      AccountedMeans();
    }

    /** The loop that relinks the nodes. */
    method Relink()
      requires Valid()
      modifies this`head, this`nodes, nodes
      ensures Valid() && nodes == Reverse(old(nodes)) && Parts(nodes) == old(Parts(nodes))
      ensures Lines() == Reverse(old(Lines()))
    {
      ghost var all := nodes;
      ghost var k := 0;
      var cur := head;
      head := null;
      while cur != null
        invariant 0 <= k <= |all| && nodes == all
        invariant cur == if k < |all| then all[k] else null
        invariant head == if k > 0 then all[k - 1] else null
        invariant k < |all| ==> Last(all).next == null
        invariant forall i {:trigger Linked(all, i)} :: k <= i < |all| - 1 ==> Linked(all, i)
        invariant k > 0 ==> all[0].next == null
        invariant forall i {:trigger LinkedBack(all, i)} :: 0 < i < k ==> LinkedBack(all, i)
        decreases |all| - k
      {
        ApartFrom(all, k);
        assert k < |all| - 1 ==> Linked(all, k);
        var next := cur.next;
        label Before:
        cur.next := head;
        head := cur;
        forall i | k < i < |all| - 1 ensures Linked(all, i) { assert old@Before(Linked(all, i)); }
        forall i | 0 < i <= k ensures LinkedBack(all, i) { assert i < k ==> old@Before(LinkedBack(all, i)); }
        cur := next;
        k := k + 1;
      }
      ChainReverse(head, all);
      LinesOfReverse(all);
      ReverseKeepsParts(all);
      nodes := Reverse(all);
    }

    /** `at_response_free`: string and node, in the order of the list, each of them once and read
        before it is released, then the string of the final line and the response itself. */
    method Free() returns (released: seq<object>)
      requires Valid() && Accounted()
      modifies heap
      ensures released == PartList(nodes) + (if final == null then [] else [final]) + [this]
      ensures heap.live == Lost()
    {
      AccountedMeans();
      ghost var k := 0;
      released := [];
      var p := head;
      while p != null
        invariant 0 <= k <= |nodes| && p == if k < |nodes| then nodes[k] else null
        invariant released == PartList(nodes[..k]) && heap.live == old(heap.live) - Parts(nodes[..k])
        decreases |nodes| - k
      {
        PartsStep(nodes, k);
        assert k < |nodes| - 1 ==> Linked(nodes, k);
        var toFree := p;
        p := heap.Next(p);
        var text := heap.TextOf(toFree);
        heap.Free(text);
        heap.Free(toFree);
        released := released + [toFree.text, toFree];
        k := k + 1;
      }
      assert nodes[..k] == nodes;
      if final != null {
        heap.Free(final);
        released := released + [final];
      }
      heap.Free(this);
      released := released + [this];
    }
  }

  lemma ReverseKeepsParts(nodes: seq<ATLine>)
    ensures Parts(Reverse(nodes)) == Parts(nodes)
  {
    var rs := Reverse(nodes);
    forall i | 0 <= i < |nodes| ensures rs[i] == nodes[|nodes| - 1 - i] { ReverseAt(nodes, i); }
    assert forall n :: n in nodes <==> n in rs by {
      assert forall i :: 0 <= i < |nodes| ==> nodes[i] == rs[|nodes| - 1 - i];
    }
  }
}
