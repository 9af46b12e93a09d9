/** The option list of a CoAP message: a linked list kept in ascending order of option numbers. */
module CoapOptions {
  import opened Bytes

  datatype Opt = Opt(number: u32, value: Bytes)

  predicate Sorted(s: seq<Opt>) {
    forall i, j :: 0 <= i < j < |s| ==> s[i].number <= s[j].number
  }

  /** Where mg_coap_add_option puts a new option: at the end, or in front of the first larger number. */
  function Place(s: seq<Opt>, number: nat): (p: nat)
    ensures p <= |s|
  {
    if s == [] || s[|s| - 1].number <= number then |s| else FirstAbove(s, number)
  }

  function FirstAbove(s: seq<Opt>, number: nat): (p: nat)
    ensures p <= |s|
    ensures p < |s| ==> s[p].number > number
    ensures forall i :: 0 <= i < p ==> s[i].number <= number
  {
    if s == [] || s[0].number > number then 0 else 1 + FirstAbove(s[1..], number)
  }

  lemma {:induction false} FirstAboveIs(s: seq<Opt>, number: nat, p: nat)
    requires p < |s| && s[p].number > number
    requires forall i :: 0 <= i < p ==> s[i].number <= number
    ensures FirstAbove(s, number) == p
  {
    if p > 0 {
      FirstAboveIs(s[1..], number, p - 1);
    }
  }

  function Insert(s: seq<Opt>, o: Opt): seq<Opt> {
    s[..Place(s, o.number)] + [o] + s[Place(s, o.number)..]
  }

  function InsertAll(s: seq<Opt>, added: seq<Opt>): seq<Opt>
    decreases |added|
  {
    if added == [] then s else InsertAll(Insert(s, added[0]), added[1..])
  }

  // ----- the list is the stable sort of everything added -----

  /** The options numbered k, in their order in s. */
  function Numbered(s: seq<Opt>, k: nat): seq<Opt> {
    if s == [] then [] else (if s[0].number == k then [s[0]] else []) + Numbered(s[1..], k)
  }

  lemma {:induction false} NumberedAppend(a: seq<Opt>, b: seq<Opt>, k: nat)
    ensures Numbered(a + b, k) == Numbered(a, k) + Numbered(b, k)
  {
    if a == [] {
      assert a + b == b;
    } else {
      assert (a + b)[1..] == a[1..] + b && (a + b)[0] == a[0];
      NumberedAppend(a[1..], b, k);
      var first := if a[0].number == k then [a[0]] else [];
      assert first + (Numbered(a[1..], k) + Numbered(b, k)) == (first + Numbered(a[1..], k)) + Numbered(b, k);
    }
  }

  lemma {:induction false} NumberedNone(s: seq<Opt>, k: nat)
    requires forall i :: 0 <= i < |s| ==> s[i].number != k
    ensures Numbered(s, k) == []
  {
    if s != [] {
      NumberedNone(s[1..], k);
    }
  }

  lemma InsertKeepsSorted(s: seq<Opt>, o: Opt)
    requires Sorted(s)
    ensures Sorted(Insert(s, o))
  {
    hide FirstAbove;
  }

  lemma NumberedInsert(s: seq<Opt>, o: Opt, p: nat, k: nat)
    requires p <= |s| && (o.number == k ==> Numbered(s[p..], k) == [])
    ensures Numbered(s[..p] + [o] + s[p..], k) == Numbered(s, k) + (if o.number == k then [o] else [])
  {
    hide Numbered;
    var a, b, extra := Numbered(s[..p], k), Numbered(s[p..], k), if o.number == k then [o] else [];
    assert s == s[..p] + s[p..];
    NumberedAppend(s[..p], s[p..], k);
    NumberedAppend(s[..p] + [o], s[p..], k);
    NumberedAppend(s[..p], [o], k);
    NumberedOne(o, k);
    assert a + extra + b == a + b + extra;
  }

  /** A new option goes behind the options that carry its number already. */
  lemma InsertIsStable(s: seq<Opt>, o: Opt, k: nat)
    requires Sorted(s)
    ensures Numbered(Insert(s, o), k) == Numbered(s, k) + (if o.number == k then [o] else [])
  {
    var p := Place(s, o.number);
    assert o.number == k ==> forall i :: 0 <= i < |s[p..]| ==> s[p..][i].number != k;
    hide FirstAbove, Place, Numbered, Sorted;
    if o.number == k {
      NumberedNone(s[p..], k);
    }
    NumberedInsert(s, o, p, k);
  }

  lemma NumberedOne(o: Opt, k: nat)
    ensures Numbered([o], k) == if o.number == k then [o] else []
  {
    assert [o][1..] == [];
  }

  /** A stable sort: ascending numbers, and equal numbers in the order of addition. */
  ghost predicate IsStableSort(sorted: seq<Opt>, added: seq<Opt>) {
    Sorted(sorted) && forall k :: Numbered(sorted, k) == Numbered(added, k)
  }

  lemma {:induction false} InsertAllIsStableSort(s: seq<Opt>, before: seq<Opt>, added: seq<Opt>)
    requires IsStableSort(s, before)
    ensures IsStableSort(InsertAll(s, added), before + added)
    decreases |added|
  {
    hide Insert, Numbered, Sorted;
    if added == [] {
      assert before + added == before;
    } else {
      var o := added[0];
      InsertKeepsSorted(s, o);
      forall k
        ensures Numbered(Insert(s, o), k) == Numbered(before + [o], k)
      {
        InsertIsStable(s, o, k);
        NumberedAppend(before, [o], k);
        NumberedOne(o, k);
      }
      InsertAllIsStableSort(Insert(s, o), before + [o], added[1..]);
      assert before + [o] + added[1..] == before + added;
    }
  }

  lemma InsertAllUnfold(s: seq<Opt>, added: seq<Opt>)
    ensures InsertAll(s, added) == if added == [] then s else InsertAll(Insert(s, added[0]), added[1..])
  {
  }

  lemma InsertAllOnEmpty(added: seq<Opt>)
    ensures IsStableSort(InsertAll([], added), added)
  {
    InsertAllIsStableSort([], [], added);
    assert [] + added == added;
  }

  lemma {:induction false} NumberedHead(s: seq<Opt>, t: seq<Opt>)
    requires Sorted(s) && Sorted(t) && s != []
    requires forall k :: Numbered(s, k) == Numbered(t, k)
    ensures t != [] && s[0] == t[0]
  {
    var n := s[0].number;
    assert Numbered(s, n)[0] == s[0];
    assert Numbered(t, n) != [];
    assert t != [];
    var m := t[0].number;
    assert Numbered(t, m)[0] == t[0];
    if m > n {
      NumberedNone(t, n);
    }
    if n > m {
      NumberedNone(s, m);
    }
  }

  lemma NumberedTail(s: seq<Opt>, k: nat)
    requires s != []
    ensures Numbered(s, k) == (if s[0].number == k then [s[0]] else []) + Numbered(s[1..], k)
    ensures s[0].number == k ==> Numbered(s, k) != [] && Numbered(s[1..], k) == Numbered(s, k)[1..]
    ensures s[0].number != k ==> Numbered(s[1..], k) == Numbered(s, k)
  {
  }

  /** There is only one stable sort, so the specification determines the list. */
  lemma {:induction false} StableSortIsUnique(s: seq<Opt>, t: seq<Opt>)
    requires Sorted(s) && Sorted(t) && forall k :: Numbered(s, k) == Numbered(t, k)
    ensures s == t
    decreases |s|
  {
    if s == [] {
      if t != [] {
        NumberedHead(t, s);
      }
    } else {
      NumberedHead(s, t);
      forall k
        ensures Numbered(s[1..], k) == Numbered(t[1..], k)
      {
        assert Numbered(s, k) == Numbered(t, k);
        NumberedTail(s, k);
        NumberedTail(t, k);
      }
      StableSortIsUnique(s[1..], t[1..]);
    }
  }

  // ----- the linked list -----

  class OptionNode {
    const number: u32               // set once, when the node is made
    const value: Bytes
    var next: OptionNode?

    constructor (number: u32, value: Bytes)
      ensures this.number == number && this.value == value && next == null
    {
      this.number, this.value, this.next := number, value, null;
    }
  }

  ghost function OptionsOf(nodes: seq<OptionNode>): (s: seq<Opt>)
    ensures |s| == |nodes|
  {
    if nodes == [] then [] else [Opt(nodes[0].number, nodes[0].value)] + OptionsOf(nodes[1..])
  }

  lemma {:induction false} OptionsOfAppend(a: seq<OptionNode>, b: seq<OptionNode>)
    ensures OptionsOf(a + b) == OptionsOf(a) + OptionsOf(b)
  {
    if a == [] {
      assert a + b == b;
    } else {
      assert (a + b)[1..] == a[1..] + b;
      OptionsOfAppend(a[1..], b);
    }
  }

  lemma {:induction false} OptionsOfAt(nodes: seq<OptionNode>, i: nat)
    requires i < |nodes|
    ensures OptionsOf(nodes)[i] == Opt(nodes[i].number, nodes[i].value)
  {
    if i > 0 {
      OptionsOfAt(nodes[1..], i - 1);
    }
  }

  lemma OptionsOfInsert(nodes: seq<OptionNode>, p: nat, option: OptionNode)
    requires p <= |nodes| && p == Place(OptionsOf(nodes), option.number)
    ensures OptionsOf(nodes[..p] + [option] + nodes[p..])
         == Insert(OptionsOf(nodes), Opt(option.number, option.value))
  {
    hide Place, OptionsOf;
    OptionsOfAppend(nodes[..p], nodes[p..]);
    assert nodes[..p] + nodes[p..] == nodes;
    OptionsOfAppend(nodes[..p] + [option], nodes[p..]);
    OptionsOfAppend(nodes[..p], [option]);
    OptionsOfAt([option], 0);
    var o := Opt(option.number, option.value);
    assert OptionsOf([option]) == [o];
    InsertBetween(OptionsOf(nodes[..p]), OptionsOf(nodes[p..]), o);
  }

  lemma InsertBetween(a: seq<Opt>, b: seq<Opt>, o: Opt)
    requires |a| == Place(a + b, o.number)
    ensures Insert(a + b, o) == a + [o] + b
  {
  }

  lemma PlaceLast(nodes: seq<OptionNode>, number: nat)
    ensures nodes == [] || nodes[|nodes| - 1].number <= number <==> Place(OptionsOf(nodes), number) == |nodes|
  {
    hide OptionsOf, FirstAbove;
    if nodes != [] {
      OptionsOfAt(nodes, |nodes| - 1);
    }
  }

  class OptionList {
    var head: OptionNode?           // cm->options
    var tail: OptionNode?           // cm->optiomg_tail, meaningless while head is null
    ghost var Nodes: seq<OptionNode>

    ghost predicate Valid()
      reads this, Nodes
    {
      && (head == null <==> Nodes == [])
      && (forall i, j :: 0 <= i < j < |Nodes| ==> Nodes[i] != Nodes[j])
      && (forall i :: 0 <= i < |Nodes| - 1 ==> Nodes[i].next == Nodes[i + 1])
      && (Nodes != [] ==> head == Nodes[0] && tail == Nodes[|Nodes| - 1] && tail.next == null)
    }

    ghost function Options(): (s: seq<Opt>)
      reads this
    {
      OptionsOf(Nodes)
    }

    constructor ()
      ensures Valid() && Nodes == [] && Options() == []
    {
      head, tail, Nodes := null, null, [];
    }

    /** mg_coap_free_options: the tail pointer is left as it is. */
    method Free()
      requires Valid()
      modifies this`head, this`Nodes
      ensures Valid() && Nodes == [] && Options() == []
    {
      while head != null
        invariant Valid()
        decreases |Nodes|
      {
        assert |Nodes| > 1 ==> head.next == Nodes[1];
        head := head.next;
        Nodes := Nodes[1..];
      }
    }

    /** The search of mg_coap_add_option for the first option with a larger number. */
    method FindPlace(number: nat) returns (prev: OptionNode?, current: OptionNode?, ghost p: nat)
      requires Valid() && Nodes != [] && tail.number > number
      ensures p == Place(Options(), number) < |Nodes|
      ensures current == Nodes[p] && prev == if p == 0 then null else Nodes[p - 1]
    {
      hide OptionsOf;
      current, prev, p := head, null, 0;
      while current != null
        invariant p <= |Nodes|
        invariant current == if p < |Nodes| then Nodes[p] else null
        invariant prev == if p == 0 then null else Nodes[p - 1]
        invariant forall i :: 0 <= i < p ==> Nodes[i].number <= number
        decreases |Nodes| - p
      {
        if current.number > number {
          break;
        }
        prev := current;
        current := current.next;
        p := p + 1;
      }
      forall i | 0 <= i < |Nodes|
        ensures Options()[i].number == Nodes[i].number
      {
        OptionsOfAt(Nodes, i);
      }
      FirstAboveIs(Options(), number, p);
    }

    /** What linking a new node in at position p has to leave behind. */
    twostate predicate LinkedAt(option: OptionNode, p: nat)
      reads this, Nodes
    {
      && p <= |old(Nodes)| && option !in old(Nodes)
      && Nodes == old(Nodes)[..p] + [option] + old(Nodes)[p..]
      && Valid()
    }

    method LinkLast(option: OptionNode)
      requires Valid() && option !in Nodes && option.next == null
      modifies this, Nodes
      ensures LinkedAt(option, |old(Nodes)|)
    {
      if head == null {
        head, tail := option, option;
      } else {
        tail.next := option;
        tail := option;
      }
      Nodes := Nodes + [option];
    }

    method LinkBefore(option: OptionNode, prev: OptionNode?, current: OptionNode, ghost p: nat)
      requires Valid() && option !in Nodes && p < |Nodes|
      requires current == Nodes[p] && prev == if p == 0 then null else Nodes[p - 1]
      modifies this, Nodes, option`next
      ensures LinkedAt(option, p)
    {
      option.next := current;
      if prev != null {
        prev.next := option;
      } else {
        head := option;
      }
      Nodes := Nodes[..p] + [option] + Nodes[p..];
    }

    /** Any sequence of mg_coap_add_option calls on an empty list sorts its options stably. */
    method AddAll(added: seq<Opt>)
      requires Valid() && Nodes == []
      modifies this
      ensures Valid() && IsStableSort(Options(), added)
    {
      hide Valid, Insert, InsertAll, IsStableSort;
      var i := 0;
      while i < |added|
        invariant Valid() && fresh(Nodes) && i <= |added|
        invariant InsertAll(Options(), added[i..]) == InsertAll([], added)
      {
        InsertAllUnfold(Options(), added[i..]);
        assert added[i..][1..] == added[i + 1..];
        var option := Add(added[i].number, added[i].value);
        i := i + 1;
      }
      InsertAllUnfold(Options(), added[i..]);
      InsertAllOnEmpty(added);
    }

    /** mg_coap_add_option */
    method Add(number: u32, value: Bytes) returns (option: OptionNode)
      requires Valid()
      modifies this, Nodes
      ensures Valid() && fresh(option)
      ensures Options() == Insert(old(Options()), Opt(number, value))
      ensures exists p :: 0 <= p <= |old(Nodes)| && Nodes == old(Nodes)[..p] + [option] + old(Nodes)[p..]
    {
      hide Place, OptionsOf;
      option := new OptionNode(number, value);
      ghost var p := |Nodes|;
      PlaceLast(Nodes, number);
      if head == null || tail.number <= number {
        LinkLast(option);
      } else {
        var prev, current;
        prev, current, p := FindPlace(number);
        LinkBefore(option, prev, current, p);
      }
      OptionsOfInsert(old(Nodes), p, option);
    }
  }
}
