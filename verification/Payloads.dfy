/** What pushing, popping, adding and removing do to one entry's payload: its
    value, its invariant and the bytes it accounts for (src/list.c, src/set.c). */
module Payloads {
  import opened Common
  import opened Spec
  import opened Table

  /** entry_bytes of a string entry. */
  function StringBytes(key: bytes, val: bytes): nat {
    SIZEOF_ENTRY + |key| + 1 + |val| + 1
  }

  function ListBytes(key: bytes): nat {
    SIZEOF_ENTRY + |key| + 1 + SIZEOF_LIST
  }

  function ListNodeBytes(val: bytes): nat {
    SIZEOF_LIST_NODE + |val| + 1
  }

  function SetBytes(key: bytes): nat {
    SIZEOF_ENTRY + |key| + 1 + SIZEOF_SET + SET_BUCKETS * SIZEOF_POINTER
  }

  function SetNodeBytes(val: bytes): nat {
    SIZEOF_SET_NODE + |val| + 1
  }

  function EmptySet(): Payload {
    PSet(seq(SET_BUCKETS, _ => []))
  }

  predicate SameKind(p: Payload, q: Payload) {
    p.PStr? == q.PStr? && p.PList? == q.PList? && p.PSet? == q.PSet?
  }

  lemma KindOfItem(e: Entry, p: Payload)
    requires !p.PStr?
    ensures SameKind(e.payload, p) <==>
              ItemOf(e).value.List? == ValueOf(p).List? && ItemOf(e).value.Set? == ValueOf(p).Set?
  {
  }

  lemma ItemOfEntry(e: Entry)
    ensures ItemOf(e) == Item(ValueOf(e.payload), e.deadline)
  {
  }

  lemma StringItem(e: Entry)
    ensures ItemOf(e).value.Str? <==> e.payload.PStr?
    ensures e.payload.PStr? ==> ItemOf(e).value.s == e.payload.s
  {
  }

  lemma SameString(e: Entry, f: Entry)
    requires ItemOf(e) == ItemOf(f) && e.payload.PStr?
    ensures f.payload.PStr? && f.payload.s == e.payload.s && f.deadline == ItemOf(f).deadline
  {
  }

  lemma Redated(e: Entry, hash: Hash, deadline: int)
    requires EntryInv(e, hash) && Int64(deadline)
    ensures EntryInv(e.(payload := e.payload, deadline := deadline), hash)
  {
  }

  lemma ListItem(e: Entry)
    ensures ItemOf(e).value.List? <==> e.payload.PList?
    ensures e.payload.PList? ==> ItemOf(e) == Item(List(e.payload.items), e.deadline)
  {
  }

  lemma EmptyListInv(key: bytes, stamp: nat, hash: Hash)
    requires ValidKey(key)
    ensures EntryInv(Entry(key, PList([]), 0, stamp), hash)
    ensures PayloadBytes(PList([])) == SIZEOF_LIST && ValueOf(PList([])) == List([])
    ensures SIZEOF_ENTRY + |key| + 1 + PayloadBytes(PList([])) == ListBytes(key)
  {
  }

  lemma PushedList(e: Entry, hash: Hash, val: bytes)
    requires e.payload.PList? && EntryInv(e, hash) && ValidValue(val)
    ensures var p := PList([val] + e.payload.items);
            && EntryInv(e.(payload := p), hash)
            && PayloadBytes(p) == PayloadBytes(e.payload) + ListNodeBytes(val)
  {
    NodeBytesAppend([val], e.payload.items, SIZEOF_LIST_NODE);
    assert NodeBytes([val], SIZEOF_LIST_NODE) == ListNodeBytes(val) + NodeBytes([val][1..], SIZEOF_LIST_NODE);
  }

  lemma PoppedList(e: Entry, hash: Hash)
    requires e.payload.PList? && e.payload.items != [] && EntryInv(e, hash)
    ensures var items := e.payload.items;
            var p := PList(items[..|items| - 1]);
            && EntryInv(e.(payload := p), hash)
            && PayloadBytes(p) + ListNodeBytes(items[|items| - 1]) == PayloadBytes(e.payload)
  {
    var items := e.payload.items;
    var rest, last := items[..|items| - 1], items[|items| - 1];
    assert items == rest + [last];
    NodeBytesAppend(rest, [last], SIZEOF_LIST_NODE);
    assert NodeBytes([last], SIZEOF_LIST_NODE) == ListNodeBytes(last) + NodeBytes([last][1..], SIZEOF_LIST_NODE);
  }

  lemma EmptySetInv(key: bytes, stamp: nat, hash: Hash)
    ensures ValidKey(key) ==> EntryInv(Entry(key, EmptySet(), 0, stamp), hash)
    ensures SIZEOF_ENTRY + |key| + 1 + PayloadBytes(EmptySet()) == SetBytes(key)
    ensures ValueOf(EmptySet()) == Set({})
  {
    ConcatEmpty<bytes>(EmptySet().nodes);
  }

  lemma {:induction false} NoDupSize(xs: seq<bytes>)
    requires NoDup(xs)
    ensures |SetOf(xs)| == |xs|
  {
    if xs != [] {
      NoDupSize(xs[1..]);
      assert SetOf(xs) == SetOf(xs[1..]) + {xs[0]};
    }
  }

  /** A set entry's value is the set of its nodes, each counted once. */
  lemma SetItem(e: Entry, hash: Hash)
    requires ItemOf(e).value.Set? && EntryInv(e, hash)
    ensures e.payload.PSet? && SetInv(e.payload.nodes, hash)
    ensures var all := Concat(e.payload.nodes);
            && ItemOf(e) == Item(Set(SetOf(all)), e.deadline)
            && NoDup(all) && |SetOf(all)| == |all|
            && (forall v :: v in SetOf(all) <==> v in all)
            && (all == [] <==> SetOf(all) == {})
  {
    NoDupSize(Concat(e.payload.nodes));
  }

  lemma SetShape(nodes: seq<seq<bytes>>, hash: Hash)
    requires SetInv(nodes, hash)
    ensures |nodes| == SET_BUCKETS
  {
  }

  lemma NoDupAround(a: seq<bytes>, v: bytes, b: seq<bytes>)
    ensures NoDup(a + [v] + b) <==> NoDup(a + b) && v !in a + b
  {
    var with, without := a + [v] + b, a + b;
    assert with[|a|] == v;
    assert forall i | 0 <= i < |without| :: without[i] == with[if i < |a| then i else i + 1];
    assert forall i | 0 <= i < |with| && i != |a| :: with[i] == without[if i < |a| then i else i - 1];
  }

  lemma AddedToNodes(nodes: seq<seq<bytes>>, hash: Hash, val: bytes)
    requires SetInv(nodes, hash) && val !in Concat(nodes)
    ensures var s := hash(val) % SET_BUCKETS;
            var nodes' := nodes[s := [val] + nodes[s]];
            && SetInv(nodes', hash)
            && SetOf(Concat(nodes')) == SetOf(Concat(nodes)) + {val}
            && NodeBytes(Concat(nodes'), SIZEOF_SET_NODE)
               == NodeBytes(Concat(nodes), SIZEOF_SET_NODE) + SetNodeBytes(val)
  {
    var s := hash(val) % SET_BUCKETS;
    var a, b := Concat(nodes[..s]), nodes[s] + Concat(nodes[s + 1..]);
    ConcatAt(nodes, s, [val] + nodes[s]);
    hide Concat, NodeBytes;
    assert Concat(nodes) == a + b;
    assert Concat(nodes[s := [val] + nodes[s]]) == a + [val] + b;
    NoDupAround(a, val, b);
    hide NoDup;
    NodeBytesAround(a, val, b, SIZEOF_SET_NODE);
    assert SetOf(a + [val] + b) == SetOf(a + b) + {val};
  }

  lemma AddedNode(e: Entry, hash: Hash, val: bytes)
    requires e.payload.PSet? && EntryInv(e, hash) && ValidValue(val)
    requires val !in Concat(e.payload.nodes)
    ensures var nodes := e.payload.nodes;
            var s := hash(val) % SET_BUCKETS;
            var p := PSet(nodes[s := [val] + nodes[s]]);
            && EntryInv(e.(payload := p), hash)
            && ValueOf(p) == Set(SetOf(Concat(nodes)) + {val})
            && PayloadBytes(p) == PayloadBytes(e.payload) + SetNodeBytes(val)
  {
    AddedToNodes(e.payload.nodes, hash, val);
    hide Concat, NodeBytes, SetInv;
  }

  lemma RemovedFromNodes(nodes: seq<seq<bytes>>, hash: Hash, s: nat, p: nat)
    requires SetInv(nodes, hash) && s < SET_BUCKETS && p < |nodes[s]|
    ensures var val := nodes[s][p];
            var nodes' := nodes[s := nodes[s][..p] + nodes[s][p + 1..]];
            && SetInv(nodes', hash)
            && SetOf(Concat(nodes)) == SetOf(Concat(nodes')) + {val} && val !in SetOf(Concat(nodes'))
            && NodeBytes(Concat(nodes'), SIZEOF_SET_NODE) + SetNodeBytes(val)
               == NodeBytes(Concat(nodes), SIZEOF_SET_NODE)
  {
    var val := nodes[s][p];
    var a, b := Concat(nodes[..s]) + nodes[s][..p], nodes[s][p + 1..] + Concat(nodes[s + 1..]);
    var rest := nodes[s][..p] + nodes[s][p + 1..];
    ConcatAt(nodes, s, rest);
    hide Concat, NodeBytes;
    assert nodes[s] == nodes[s][..p] + [val] + nodes[s][p + 1..];
    assert Concat(nodes) == a + [val] + b;
    assert Concat(nodes[s := rest]) == a + b;
    NoDupAround(a, val, b);
    hide NoDup;
    NodeBytesAround(a, val, b, SIZEOF_SET_NODE);
    assert SetOf(a + [val] + b) == SetOf(a + b) + {val};
  }

  lemma RemovedNode(e: Entry, hash: Hash, s: nat, p: nat)
    requires e.payload.PSet? && EntryInv(e, hash)
    requires s < SET_BUCKETS && p < |e.payload.nodes[s]|
    ensures var nodes := e.payload.nodes;
            var val := nodes[s][p];
            var q := PSet(nodes[s := nodes[s][..p] + nodes[s][p + 1..]]);
            && EntryInv(e.(payload := q), hash)
            && ValueOf(q) == Set(SetOf(Concat(nodes)) - {val})
            && PayloadBytes(q) + SetNodeBytes(val) == PayloadBytes(e.payload)
            && (Concat(q.nodes) == [] <==> SetOf(Concat(nodes)) == {val})
  {
    var nodes := e.payload.nodes;
    var nodes' := nodes[s := nodes[s][..p] + nodes[s][p + 1..]];
    RemovedFromNodes(nodes, hash, s, p);
    hide Concat, NodeBytes, SetInv;
    var all, rest := SetOf(Concat(nodes)), SetOf(Concat(nodes'));
    assert rest == all - {nodes[s][p]};
    assert Concat(nodes') != [] ==> Concat(nodes')[0] in rest;
  }
}
