/** The intrusive doubly linked list both trackers of heap blocks use: `next` leads to older blocks. */
module HeapLists {
  class Hdr {
    var tag: nat
    var prev: Hdr?
    var next: Hdr?
    var size: nat

    constructor ()
      ensures prev == null && next == null
    {
      tag, size, prev, next := 0, 0, null, null;
    }
  }

  /** `s` without position k. */
  function Cut<T>(s: seq<T>, k: nat): seq<T>
    requires k < |s|
  {
    s[..k] + s[k + 1..]
  }

  ghost function IndexOf(s: seq<Hdr>, h: Hdr): (k: nat)
    requires h in s
    ensures k < |s| && s[k] == h
  {
    if s[0] == h then 0 else IndexOf(s[1..], h) + 1
  }

  ghost function Without(s: seq<Hdr>, h: Hdr): seq<Hdr> {
    if h in s then Cut(s, IndexOf(s, h)) else s
  }

  ghost predicate Distinct<T>(s: seq<T>) {
    forall i, j :: 0 <= i < j < |s| ==> s[i] != s[j]
  }

  /** The blocks two links lead to. */
  ghost function Links(p: Hdr?, q: Hdr?): set<Hdr> {
    (if p == null then {} else {p}) + (if q == null then {} else {q})
  }

  ghost predicate Apart(s: seq<Hdr>, t: seq<Hdr>) { forall h :: h in s ==> h !in t }

  lemma ApartByIndex(s: seq<Hdr>, t: seq<Hdr>)
    requires Apart(s, t)
    ensures forall i :: 0 <= i < |t| ==> t[i] !in s
    ensures forall i :: 0 <= i < |s| ==> s[i] !in t
  {
  }

  /** A block and the blocks its links lead to. */
  ghost function Around(h: Hdr?): set<Hdr>
    reads h
  {
    if h == null then {} else {h} + Links(h.prev, h.next)
  }

  class HdrList {
    var first: Hdr?
    var last: Hdr?
    ghost var nodes: seq<Hdr> // oldest first

    ghost predicate Linked()
      reads this, nodes
    {
      LinkedAs(nodes)
    }

    /** The links and ends are those of a list of these blocks. */
    ghost predicate LinkedAs(s: seq<Hdr>)
      reads this, s
    {
      && Distinct(s)
      && first == (if s == [] then null else s[0])
      && last == (if s == [] then null else s[|s| - 1])
      && (forall i {:trigger s[i].next} :: 0 <= i < |s| ==> s[i].next == if i == 0 then null else s[i - 1])
      && (forall i {:trigger s[i].prev} :: 0 <= i < |s| ==> s[i].prev == if i == |s| - 1 then null else s[i + 1])
    }

    constructor ()
      ensures Linked() && nodes == []
    {
      first, last, nodes := null, null, [];
    }

    /** The links of a block in the list stay in the list. */
    lemma Neighbours(h: Hdr)
      requires Linked() && h in nodes
      ensures h.prev == null || h.prev in nodes
      ensures h.next == null || h.next in nodes
    {
      var k := IndexOf(nodes, h);
      assert nodes[k].next == h.next && nodes[k].prev == h.prev;
    }

    /** Appends a block as the newest. */
    method Add(h: Hdr)
      modifies this, Links(last, null)`prev, h`prev, h`next
      ensures nodes == old(nodes) + [h]
      ensures last == h && first == (if old(last) == null then h else old(first))
      ensures h.next == old(last) && (old(last) != h ==> h.prev == null) && (old(last) != null ==> old(last).prev == h)
      ensures old(Linked() && h !in nodes) ==> Linked()
    {
      h.prev := null;
      h.next := last;
      if last != null {
        last.prev := h;
      } else {
        first := h;
      }
      last := h;
      nodes := nodes + [h];
    }

    /** The links of a block name neighbours, or ends, that the list still has. */
    ghost predicate Fits(h: Hdr)
      reads this, nodes, h
    {
      && (if h.prev == null then last == h.next else h.prev in nodes ==> h.prev.next == h.next)
      && (if h.next == null then first == h.prev else h.next in nodes ==> h.next.prev == h.prev)
    }

    /** Lets the neighbours a block's links name point to each other; its own links stay as they were. */
    method Unlink(h: Hdr)
      modifies this`first, this`last, Links(h.prev, null)`next, Links(h.next, null)`prev
      ensures Relinked(h)
    {
      if h.prev != null {
        h.prev.next := h.next;
      } else {
        last := h.next;
      }
      if h.next != null {
        h.next.prev := h.prev;
      } else {
        first := h.prev;
      }
    }

    twostate predicate Relinked(h: Hdr)
      reads this, h, Links(h.prev, h.next)
    {
      && h.prev == old(h.prev) && h.next == old(h.next)
      && last == (if h.prev == null then h.next else old(last))
      && first == (if h.next == null then h.prev else old(first))
      && (h.prev != null ==> h.prev.next == h.next)
      && (h.next != null ==> h.next.prev == h.prev)
    }

    /** Unlinking makes of a list with the block a list without it; a list that has the block no more is severed. */
    method Del(h: Hdr)
      modifies this, Links(h.prev, null)`next, Links(h.next, null)`prev
      ensures nodes == Without(old(nodes), h) && Relinked(h)
      ensures old(Linked() && h in nodes) ==> Linked()
      ensures old(h !in nodes) ==> Severed(h)
    {
      ghost var linked := Linked();
      Unlink(h);
      if linked && h in nodes { Closes(h); }
      nodes := Without(nodes, h);
    }

    /** The same beside a second list that shares no block with this one. */
    method AddBeside(h: Hdr, ghost other: HdrList)
      requires other != this
      modifies this, Links(last, null)`prev, h`prev, h`next
      ensures nodes == old(nodes) + [h]
      ensures last == h && first == (if old(last) == null then h else old(first))
      ensures h.next == old(last) && (old(last) != h ==> h.prev == null) && (old(last) != null ==> old(last).prev == h)
      ensures old(Linked() && other.Linked() && Apart(nodes, other.nodes) && h !in nodes && h !in other.nodes) ==>
        Linked() && other.Linked() && Apart(nodes, other.nodes)
    {
      ghost var beside := Linked() && other.Linked() && Apart(nodes, other.nodes) && h !in nodes && h !in other.nodes;
      if beside { ApartByIndex(nodes, other.nodes); }
      Add(h);
      if beside { other.UntouchedStays(); }
    }

    /** Unlinking beside a second list: a block that is in this one touches no link of the other. */
    method DelBeside(h: Hdr, ghost other: HdrList)
      requires other != this
      modifies this, Links(h.prev, null)`next, Links(h.next, null)`prev
      ensures nodes == Without(old(nodes), h) && Relinked(h)
      ensures old(Linked() && h in nodes && other.Linked() && Apart(nodes, other.nodes)) ==>
        Linked() && other.Linked() && Apart(nodes, other.nodes) && h !in nodes
      ensures old(h !in nodes) ==> Severed(h)
    {
      ghost var beside := Linked() && h in nodes && other.Linked() && Apart(nodes, other.nodes);
      if beside {
        Neighbours(h);
        CutDistinct(nodes, IndexOf(nodes, h));
        ApartByIndex(nodes, other.nodes);
      }
      Del(h);
      if beside { other.UntouchedStays(); }
    }

    /** Unlinking block `h` has written to the ends and to the links of its neighbours, and to no other link. */
    twostate predicate Severed(h: Hdr)
      reads this, nodes
    {
      && nodes == old(nodes)
      && last == (if old(h.prev) == null then old(h.next) else old(last))
      && first == (if old(h.next) == null then old(h.prev) else old(first))
      && (forall x :: x in nodes ==> x.next == if x == old(h.prev) then old(h.next) else old(x.next))
      && (forall x :: x in nodes ==> x.prev == if x == old(h.next) then old(h.prev) else old(x.prev))
    }

    /** A list that had the block no more survives exactly when the block's old links still fitted. */
    twostate lemma SeveredSurvives(h: Hdr)
      requires old(Linked()) && Severed(h)
      ensures h !in nodes ==> (Linked() <==> old(Fits(h)))
    {
      assert forall i :: 0 <= i < |nodes| ==> nodes[i] in nodes;
    }

    /** The first block's links lead to blocks of the list or to some others. */
    ghost predicate FirstWithin(others: set<Hdr>)
      reads this, nodes, first
    {
      forall x :: x in Around(first) ==> x in nodes || x in others
    }

    twostate lemma FirstStaysWithin(h: Hdr)
      requires old(Linked()) && nodes == old(nodes) && first == old(first)
      requires h.prev == old(h.prev) && h.next == old(h.next)
      requires first != null ==> first.prev == old(first.prev) || first.prev == h.prev
      requires first != null ==> first.next == old(first.next) || first.next == h.next
      ensures FirstWithin(old(Around(h)))
    {
      if nodes != [] { assert old(nodes[0].prev) == null || old(nodes[0].prev) in nodes; }
    }

    twostate lemma UntouchedStays()
      requires old(Linked()) && first == old(first) && last == old(last) && nodes == old(nodes)
      requires forall i :: 0 <= i < |nodes| ==> nodes[i].next == old(nodes[i].next) && nodes[i].prev == old(nodes[i].prev)
      ensures Linked()
    {
    }

    /** The list's links and ends pass over block number k. */
    ghost predicate PassOver(k: nat)
      requires k < |nodes|
      reads this, nodes
    {
      var n := |nodes|;
      && Distinct(nodes)
      && first == (if k > 0 then nodes[0] else if n > 1 then nodes[1] else null)
      && last == (if k < n - 1 then nodes[n - 1] else if n > 1 then nodes[n - 2] else null)
      && (forall i {:trigger nodes[i].next} :: 0 <= i < n && i != k ==>
            nodes[i].next == if i == k + 1 then (if k == 0 then null else nodes[k - 1]) else if i == 0 then null else nodes[i - 1])
      && (forall i {:trigger nodes[i].prev} :: 0 <= i < n && i != k ==>
            nodes[i].prev == if i == k - 1 then (if k == n - 1 then null else nodes[k + 1])
                             else if i == n - 1 then null else nodes[i + 1])
    }

    /** Only the links the block's own name were changed. */
    twostate predicate OthersKept(h: Hdr)
      reads this, h, nodes
    {
      && nodes == old(nodes)
      && (forall i {:trigger nodes[i].next} :: 0 <= i < |nodes| && nodes[i] != h.prev ==> nodes[i].next == old(nodes[i].next))
      && (forall i {:trigger nodes[i].prev} :: 0 <= i < |nodes| && nodes[i] != h.next ==> nodes[i].prev == old(nodes[i].prev))
    }

    lemma PassedOver(k: nat)
      requires k < |nodes| && PassOver(k)
      ensures LinkedAs(Cut(nodes, k))
    {
      var s, t := nodes, Cut(nodes, k);
      CutDistinct(s, k);
      assert forall i :: 0 <= i < |t| ==> t[i] == if i < k then s[i] else s[i + 1];
    }

    twostate lemma Closes(h: Hdr)
      requires old(Linked()) && Relinked(h) && OthersKept(h) && h in nodes
      ensures LinkedAs(Without(nodes, h))
    {
      var s, k := nodes, IndexOf(nodes, h);
      assert h.next == (if k == 0 then null else s[k - 1]) && h.prev == if k == |s| - 1 then null else s[k + 1];
      PassedOver(k);
    }
  }

  lemma CutDistinct<T>(s: seq<T>, k: nat)
    requires Distinct(s) && k < |s|
    ensures Distinct(Cut(s, k)) && s[k] !in Cut(s, k)
    ensures forall x :: x in s ==> x in Cut(s, k) || x == s[k]
    ensures forall x :: x in Cut(s, k) ==> x in s
  {
  }
}
