/** The intrusive lists of include/queue.h: an element points to the next one and to the pointer
    that points to it, which is the list head or the next field of another element. */
module ListQueue {

  /** The value of le_prev: the address of a head's lh_first or of an element's le_next. */
  datatype Ref = HeadField(h: ListHead) | NextField(e: Node)

  class ListHead {
    var first: Node?   // lh_first

    constructor () ensures first == null { first := null; }
  }

  class Node {
    const id: nat      // which environment this link belongs to
    var next: Node?    // le_next
    var prev: Ref      // le_prev

    constructor (id: nat, anywhere: ListHead)
      ensures this.id == id
    {
      this.id := id;
      next := null;
      prev := HeadField(anywhere);
    }
  }

  ghost predicate Distinct(s: seq<Node>) {
    forall i, j | 0 <= i < j < |s| :: s[i] != s[j]
  }

  /** The field that points at element i, and what its own next field holds. */
  ghost function PointsAt(h: ListHead, s: seq<Node>, i: nat): Ref
    requires i < |s|
  {
    if i == 0 then HeadField(h) else NextField(s[i - 1])
  }

  ghost function Following(s: seq<Node>, i: nat): Node?
    requires i < |s|
  {
    if i == |s| - 1 then null else s[i + 1]
  }

  /** The list headed by h is the sequence s. */
  ghost predicate IsList(h: ListHead, s: seq<Node>)
    reads h, s
  {
    && Distinct(s)
    && h.first == (if s == [] then null else s[0])
    && (forall i {:trigger s[i].prev} | 0 <= i < |s| :: s[i].prev == PointsAt(h, s, i))
    && (forall i {:trigger s[i].next} | 0 <= i < |s| :: s[i].next == Following(s, i))
  }

  /** *ref = to */
  method Assign(ref: Ref, to: Node?)
    modifies if ref.HeadField? then {ref.h as object} else {ref.e as object}
    ensures ref.HeadField? ==> ref.h.first == to
    ensures ref.NextField? ==> ref.e.next == to && ref.e.prev == old(ref.e.prev)
  {
    match ref
    case HeadField(h) => h.first := to;
    case NextField(e) => e.next := to;
  }

  method InsertHead(h: ListHead, elm: Node, ghost s: seq<Node>)
    requires IsList(h, s) && elm !in s
    modifies h, elm, s
    ensures IsList(h, [elm] + s)
  {
    assert forall i | 0 <= i < |s| :: s[i] in s;
    elm.next := h.first;
    if elm.next != null {
      h.first.prev := NextField(elm);
    }
    h.first := elm;
    elm.prev := HeadField(h);
    ghost var t := [elm] + s;
    assert forall i | 0 < i < |t| :: t[i] == s[i - 1];
  }

  /** The loop of LIST_INSERT_TAIL: the element's own next field runs along the list as the cursor. */
  method SeekLast(h: ListHead, elm: Node, ghost s: seq<Node>)
    requires IsList(h, s) && elm !in s && s != []
    modifies elm`next
    ensures IsList(h, s) && elm.next == s[|s| - 1]
  {
    assert forall i | 0 <= i < |s| :: s[i] in s;
    elm.next := h.first;
    ghost var k := 0;
    while elm.next.next != null
      invariant 0 <= k < |s| && elm.next == s[k] && IsList(h, s)
      decreases |s| - k
    {
      elm.next := elm.next.next;
      k := k + 1;
    }
  }

  method InsertTail(h: ListHead, elm: Node, ghost s: seq<Node>)
    requires IsList(h, s) && elm !in s
    modifies h, elm, s
    ensures IsList(h, s + [elm])
  {
    if h.first != null {
      SeekLast(h, elm, s);
      elm.next.next := elm;
      elm.prev := NextField(elm.next);
      elm.next := null;
      ghost var t := s + [elm];
      assert forall i | 0 <= i < |s| :: t[i] == s[i];
    } else {
      InsertHead(h, elm, s);
      assert [elm] + s == s + [elm];
    }
  }

  lemma Spliced(s: seq<Node>, elm: Node, i: nat, t: seq<Node>)
    requires Distinct(s) && elm !in s && i <= |s| && t == s[..i] + [elm] + s[i..]
    ensures Distinct(t) && |t| == |s| + 1 && t[i] == elm
    ensures forall j {:trigger t[j]} | 0 <= j < i :: t[j] == s[j]
    ensures forall j {:trigger t[j]} | i < j < |t| :: t[j] == s[j - 1]
  {
  }

  method InsertAfter(listelm: Node, elm: Node, ghost h: ListHead, ghost s: seq<Node>, ghost i: nat)
    requires IsList(h, s) && elm !in s && i < |s| && s[i] == listelm
    modifies elm, s
    ensures IsList(h, s[..i + 1] + [elm] + s[i + 1..])
  {
    assert listelm.next == if i == |s| - 1 then null else s[i + 1];
    elm.next := listelm.next;
    if listelm.next != null {
      listelm.next.prev := NextField(elm);
    }
    listelm.next := elm;
    elm.prev := NextField(listelm);
    ghost var t := s[..i + 1] + [elm] + s[i + 1..];
    Spliced(s, elm, i + 1, t);
    forall j | 0 <= j < |t| ensures t[j].prev == PointsAt(h, t, j) && t[j].next == Following(t, j) {
      if j <= i { assert t[j] == s[j]; } else if j > i + 1 { assert t[j] == s[j - 1]; }
    }
  }

  method InsertBefore(listelm: Node, elm: Node, ghost h: ListHead, ghost s: seq<Node>, ghost i: nat)
    requires IsList(h, s) && elm !in s && i < |s| && s[i] == listelm
    modifies h, elm, s
    ensures IsList(h, s[..i] + [elm] + s[i..])
  {
    assert listelm.prev == if i == 0 then HeadField(h) else NextField(s[i - 1]);
    elm.prev := listelm.prev;
    elm.next := listelm;
    Assign(listelm.prev, elm);
    listelm.prev := NextField(elm);
    ghost var t := s[..i] + [elm] + s[i..];
    Spliced(s, elm, i, t);
    forall j | 0 <= j < |t| ensures t[j].prev == PointsAt(h, t, j) && t[j].next == Following(t, j) {
      if j < i { assert t[j] == s[j]; } else if j > i { assert t[j] == s[j - 1]; }
    }
  }

  method Remove(elm: Node, ghost h: ListHead, ghost s: seq<Node>, ghost i: nat)
    requires IsList(h, s) && i < |s| && s[i] == elm
    modifies h, s
    ensures IsList(h, s[..i] + s[i + 1..])
  {
    assert elm.next == if i == |s| - 1 then null else s[i + 1];
    assert elm.prev == if i == 0 then HeadField(h) else NextField(s[i - 1]);
    if elm.next != null {
      elm.next.prev := elm.prev;
    }
    Assign(elm.prev, elm.next);
    ghost var t := s[..i] + s[i + 1..];
    assert forall j | 0 <= j < |t| :: t[j] == if j < i then s[j] else s[j + 1];
  }
}
