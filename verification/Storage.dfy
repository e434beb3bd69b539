/** The chained hash table of zenoh-c's z_storage example on the heap: an array of
    bins, doubly linked nodes updated in place, and an iterator over them. */
module Storage {
  import opened Bytes
  import opened StorageModel

  class Node {
    var sample: Sample
    var next: Node?
    var prev: Node?

    constructor (sample: Sample)
      ensures this.sample == sample && next == null && prev == null
    {
      this.sample := sample;
      next, prev := null, null;
    }
  }

  /** storage_iterator_t: past the last bin at the end. */
  datatype Iterator = Iterator(bin: nat, node: Node?)

  /** The nodes c in order form the acyclic doubly linked list that starts at head. */
  ghost predicate Linked(head: Node?, c: seq<Node>)
    reads c
  {
    && (c == [] ==> head == null)
    && (c != [] ==> head == c[0] && c[0].prev == null && c[|c| - 1].next == null)
    && (forall i {:trigger c[i].next} :: 0 <= i < |c| - 1 ==> c[i].next == c[i + 1])
    && (forall i {:trigger c[i].prev} :: 0 < i < |c| ==> c[i].prev == c[i - 1])
    && (forall i, j :: 0 <= i < j < |c| ==> c[i] != c[j])
  }

  /** The nodes c carry the samples s, position by position. */
  ghost predicate Carries(c: seq<Node>, s: Chain)
    reads c
  {
    |c| == |s| && forall i :: 0 <= i < |c| ==> c[i].sample == s[i]
  }

  /** Walk to the tail of a chain and hang a new node behind it. */
  method AppendNode(head: Node, ghost c: seq<Node>, ghost s: Chain, sample: Sample) returns (tail: Node)
    requires c != [] && Linked(head, c) && Carries(c, s)
    modifies c
    ensures fresh(tail) && Linked(head, c + [tail]) && Carries(c + [tail], s + [sample])
  {
    var res := head;
    ghost var j := 0;
    while res.next != null
      invariant j < |c| && res == c[j]
      decreases |c| - j
    {
      res, j := res.next, j + 1;
    }
    tail := new Node(sample);
    res.next := tail;
    tail.prev := res;
  }

  /** Take the i-th node out of a chain; the head changes when it was the first. */
  method UnlinkNode(head: Node?, ghost c: seq<Node>, ghost s: Chain, ghost i: nat, res: Node) returns (head': Node?)
    requires Linked(head, c) && Carries(c, s) && i < |c| && res == c[i]
    modifies c
    ensures Linked(head', c[..i] + c[i + 1..]) && Carries(c[..i] + c[i + 1..], s[..i] + s[i + 1..])
  {
    head' := head;
    if res.prev == null {
      head' := res.next;
    } else {
      res.prev.next := res.next;
    }
    if res.next != null {
      res.next.prev := res.prev;
    }
    Relinked(head', c, i);
    assert Carries(c, s);
    StillCarries(c, s, i);
  }

  /** Taking the i-th node out leaves a list when its neighbours point past it. */
  lemma Relinked(head: Node?, c: seq<Node>, i: nat)
    requires i < |c| && (forall a, b :: 0 <= a < b < |c| ==> c[a] != c[b])
    requires head == if i > 0 then c[0] else if |c| > 1 then c[1] else null
    requires forall k {:trigger c[k].next} :: 0 <= k < |c| && k != i ==> c[k].next == Beyond(c, i, k + 1)
    requires forall k {:trigger c[k].prev} :: 0 <= k < |c| && k != i ==> c[k].prev == Before(c, i, k)
    ensures Linked(head, c[..i] + c[i + 1..])
  {
    var d := c[..i] + c[i + 1..];
    forall k | 0 <= k < |d| - 1 ensures d[k].next == d[k + 1] {
      assert d[k] == c[if k < i then k else k + 1] && d[k + 1] == c[if k + 1 < i then k + 1 else k + 2];
    }
    forall k | 0 < k < |d| ensures d[k].prev == d[k - 1] {
      assert d[k] == c[if k < i then k else k + 1] && d[k - 1] == c[if k - 1 < i then k - 1 else k];
    }
    if d != [] {
      assert d[0] == c[if 0 < i then 0 else 1] && d[|d| - 1] == c[if |d| - 1 < i then |d| - 1 else |d|];
    }
  }

  /** The node at k or, past the i-th, after it. */
  ghost function Beyond(c: seq<Node>, i: nat, k: nat): Node? {
    if k == i then (if i + 1 < |c| then c[i + 1] else null) else if k < |c| then c[k] else null
  }

  ghost function Before(c: seq<Node>, i: nat, k: nat): Node?
    requires k < |c|
  {
    if k == i + 1 then (if i > 0 then c[i - 1] else null) else if k > 0 then c[k - 1] else null
  }

  lemma StillCarries(c: seq<Node>, s: Chain, i: nat)
    requires Carries(c, s) && i < |c|
    ensures Carries(c[..i] + c[i + 1..], s[..i] + s[i + 1..])
  {
  }

  class Table {
    const bins: array<Node?>
    ghost var chains: seq<seq<Node>>
    ghost var owner: map<Node, nat>  // the bin each node belongs to
    ghost var table: Bins
    ghost var contents: map<Key, seq<byte>>

    /** The bins hold disjoint, acyclic, doubly linked chains that carry the table. */
    ghost predicate Structured()
      reads this`chains, this`owner, this`table, bins, owner.Keys
    {
      && |chains| == |table| == bins.Length > 0
      && (forall b, i :: 0 <= b < |chains| && 0 <= i < |chains[b]| ==>
            chains[b][i] in owner && owner[chains[b][i]] == b)
      && (forall b :: 0 <= b < |chains| ==> Linked(bins[b], chains[b]) && Carries(chains[b], table[b]))
    }

    ghost predicate Valid()
      reads this, bins, owner.Keys
    {
      Structured() && WellPlaced(table) && Represents(table, contents)
    }

    /** storage_new */
    constructor (numBins: nat)
      requires numBins > 0
      ensures Valid() && fresh(bins) && owner == map[] && bins.Length == numBins
      ensures contents == map[] && table == Empty(numBins)
    {
      bins := new Node?[numBins](_ => null);
      chains := seq(numBins, _ => []);
      owner := map[];
      table := Empty(numBins);
      contents := map[];
    }

    /** _storage_find on the chain of bin b. */
    method FindNode(ghost b: nat, head: Node?, key: Key) returns (node: Node?, ghost i: nat)
      requires Structured() && b < |chains| && head == bins[b]
      ensures i == IndexOf(table[b], key)
      ensures node == if IndexOf(table[b], key) < |chains[b]| then chains[b][IndexOf(table[b], key)] else null
    {
      node, i := head, 0;
      ghost var c, s := chains[b], table[b];
      assert s[0..] == s;
      while node != null
        invariant i <= |c| && node == if i < |c| then c[i] else null
        invariant IndexOf(s, key) == i + IndexOf(s[i..], key)
        decreases |c| - i
      {
        var same := CompareString(node.sample.key, key);
        if same {
          return;
        }
        assert s[i..][1..] == s[i + 1..];
        node, i := node.next, i + 1;
      }
    }

    /** storage_find; the pointer to the stored sample is returned as its value. */
    method Find(key: Key) returns (r: Option<Sample>)
      requires Valid()
      ensures r == Lookup(table, key)
      ensures match r
              case None => forall q | q in contents :: !SameSlot(q, key, bins.Length)
              case Some(s) => s.key in contents && contents[s.key] == s.payload && SameSlot(s.key, key, bins.Length)
      ensures r == (if key in contents then Some(Sample(key, contents[key])) else None)
              <==> Alone(contents, key, bins.Length)
    {
      var bin := BinOf(key);
      LookupIs(table, key, contents);
      LookupExactly(table, key, contents);
      var node, i := FindNode(bin, bins[bin], key);
      r := if node == null then None else Some(node.sample);
    }

    /** hash % num_bins */
    method BinOf(key: Key) returns (bin: nat)
      requires Structured()
      ensures bin < |table| == bins.Length && bin == Bin(key, bins.Length)
    {
      var hash := HashString(key);
      bin := hash % bins.Length;
    }

    /** storage_insert */
    method Insert(sample: Sample)
      requires Valid()
      modifies this, bins, owner.Keys
      ensures Valid() && fresh(owner.Keys - old(owner.Keys)) && old(owner.Keys) <= owner.Keys
      ensures table == Put(old(table), sample)
      ensures contents == PutMap(old(contents), sample, bins.Length)
      ensures contents == old(contents)[sample.key := sample.payload] <==> Alone(old(contents), sample.key, bins.Length)
    {
      hide WellPlaced, Represents, PutChain, PutMap, Alone, Hash;
      var bin := BinOf(sample.key);
      ghost var t, m := table, contents;
      PutRefines(t, sample, m);
      MapExactly(m, sample, |t|);
      hide Structured, Bin;
      InsertAt(bin, sample);
      contents := PutMap(m, sample, |t|);
    }

    /** The three cases of storage_insert once the bin is known. */
    method InsertAt(bin: nat, sample: Sample)
      requires Structured() && bin < |table|
      modifies this`chains, this`owner, this`table, bins, owner.Keys
      ensures Structured() && fresh(owner.Keys - old(owner.Keys)) && old(owner.Keys) <= owner.Keys
      ensures table == old(table)[bin := PutChain(old(table)[bin], sample)]
    {
      hide CompareSpec, IndexOf;
      var res, i := FindNode(bin, bins[bin], sample.key);
      PutCases(table[bin], sample);
      if res != null {
        ReplaceAt(bin, i, res, sample);
      } else if bins[bin] == null {
        res := new Node(sample);
        UpdateChain(bin, res, [res], [sample], owner[res := bin]);
      } else {
        AppendAt(bin, sample);
      }
    }

    method ReplaceAt(bin: nat, ghost i: nat, res: Node, sample: Sample)
      requires Structured() && bin < |table| && i < |chains[bin]| && res == chains[bin][i]
      modifies this`chains, this`owner, this`table, bins, owner.Keys
      ensures Structured() && owner == old(owner)
      ensures table == old(table)[bin := old(table)[bin][i := sample]]
    {
      res.sample := sample;
      UpdateChain(bin, bins[bin], chains[bin], table[bin][i := sample], owner);
    }

    method AppendAt(bin: nat, sample: Sample)
      requires Structured() && bin < |table| && chains[bin] != []
      modifies this`chains, this`owner, this`table, bins, owner.Keys
      ensures Structured() && fresh(owner.Keys - old(owner.Keys)) && old(owner.Keys) <= owner.Keys
      ensures table == old(table)[bin := old(table)[bin] + [sample]]
    {
      ghost var c := chains[bin];
      var res := AppendNode(bins[bin], c, table[bin], sample);
      UpdateChain(bin, bins[bin], c + [res], table[bin] + [sample], owner[res := bin]);
    }

    /** Record the new state of one chain after its nodes were changed in place. */
    method UpdateChain(bin: nat, head: Node?, ghost c: seq<Node>, ghost s: Chain, ghost owner': map<Node, nat>)
      requires |chains| == |table| == bins.Length && bin < |chains|
      requires Linked(head, c) && Carries(c, s)
      requires forall b: nat | b < |chains| && b != bin ::
                 && Linked(bins[b], chains[b]) && Carries(chains[b], table[b])
                 && forall i | 0 <= i < |chains[b]| :: chains[b][i] in owner' && owner'[chains[b][i]] == b
      requires forall i | 0 <= i < |c| :: c[i] in owner' && owner'[c[i]] == bin
      modifies this`chains, this`owner, this`table, bins
      ensures Structured() && owner == owner' && table == old(table)[bin := s]
    {
      bins[bin] := head;
      chains := chains[bin := c];
      table := table[bin := s];
      owner := owner';
    }

    /** storage_remove */
    method Remove(key: Key)
      requires Valid()
      modifies this, bins, owner.Keys
      ensures Valid() && owner.Keys <= old(owner.Keys)
      ensures table == Del(old(table), key)
      ensures contents == DelMap(old(contents), key, bins.Length)
      ensures contents == old(contents) - {key} <==> Alone(old(contents), key, bins.Length)
    {
      var bin := BinOf(key);
      ghost var t, m := table, contents;
      DelRefines(t, key, m);
      MapExactly(m, Sample(key, []), |t|);
      hide Structured, WellPlaced, Represents, DelChain, DelMap, Alone, Hash;
      RemoveAt(bin, key);
      contents := DelMap(m, key, |t|);
    }

    /** Unlink the node found; z_free is its leaving the owned nodes. */
    method RemoveAt(bin: nat, key: Key)
      requires Structured() && bin < |table|
      modifies this`chains, this`owner, this`table, bins, owner.Keys
      ensures Structured() && owner.Keys <= old(owner.Keys)
      ensures table == old(table)[bin := DelChain(old(table)[bin], key)]
    {
      var res, i := FindNode(bin, bins[bin], key);
      if res == null {
        assert table == table[bin := table[bin]];
        return;
      }
      UnlinkAt(bin, i, res);
    }

    method UnlinkAt(bin: nat, ghost i: nat, res: Node)
      requires Structured() && bin < |table| && i < |chains[bin]| && res == chains[bin][i]
      modifies this`chains, this`owner, this`table, bins, owner.Keys
      ensures Structured() && owner == old(owner) - {res}
      ensures table == old(table)[bin := old(table)[bin][..i] + old(table)[bin][i + 1..]]
    {
      ghost var c, s := chains[bin], table[bin];
      var head := UnlinkNode(bins[bin], c, s, i, res);
      UpdateChain(bin, head, c[..i] + c[i + 1..], s[..i] + s[i + 1..], owner - {res});
    }

    /** sub_handler's switch. */
    method Receive(e: Event)
      requires Valid()
      modifies this, bins, owner.Keys
      ensures Valid() && fresh(owner.Keys - old(owner.Keys))
      ensures |old(table)| > 0 && table == ApplyOne(old(table), e)
      ensures bins.Length > 0 && contents == ApplyOneSlot(old(contents), e, bins.Length)
    {
      hide WellPlaced, Represents, PutMap, DelMap, Alone, Hash;
      match e
      case PutEvent(s) => Insert(s);
      case DeleteEvent(k) => Remove(k);
    }

    // ---- Iteration ----

    /** The iterator stands at position i of its bin, or past the last bin. */
    ghost predicate At(it: Iterator, i: nat)
      reads this, bins
    {
      && |chains| == bins.Length && it.bin <= bins.Length
      && (it.bin < bins.Length ==> i < |chains[it.bin]| && it.node == chains[it.bin][i])
      && (it.bin == bins.Length ==> it.node == null && i == 0)
    }

    method FirstNonEmptyBin(from: nat) returns (it: Iterator)
      requires Structured() && from <= bins.Length
      ensures At(it, 0) && Rest(table, it.bin, 0) == Flatten(table[from..])
    {
      var start := from;
      while start < bins.Length
        invariant from <= start <= bins.Length
        invariant Flatten(table[start..]) == Flatten(table[from..])
      {
        FlattenStep(table, start);
        assert Linked(bins[start], chains[start]) && Carries(chains[start], table[start]);
        if bins[start] != null {
          return Iterator(start, bins[start]);
        }
        start := start + 1;
      }
      return Iterator(start, null);
    }

    method Begin() returns (it: Iterator)
      requires Structured()
      ensures At(it, 0) && Rest(table, it.bin, 0) == Flatten(table)
    {
      it := FirstNonEmptyBin(0);
      assert table[0..] == table;
    }

    method IsEnd(it: Iterator) returns (end: bool)
      ensures end <==> it.bin >= bins.Length
    {
      end := it.bin >= bins.Length;
    }

    /** storage_iterator_value and storage_iterator_next: the sample under the
        iterator is the first of what is left, and next leaves the others. */
    method Next(it: Iterator, ghost i: nat) returns (sample: Sample, it': Iterator, ghost j: nat)
      requires Structured() && At(it, i) && it.bin < bins.Length
      ensures i < |table[it.bin]| && sample == table[it.bin][i]
      ensures At(it', j) && Rest(table, it.bin, i) == [sample] + Rest(table, it'.bin, j)
    {
      assert Linked(bins[it.bin], chains[it.bin]) && Carries(chains[it.bin], table[it.bin]);
      sample := it.node.sample;
      RestStep(table, it.bin, i);
      if it.node.next != null {
        it', j := Iterator(it.bin, it.node.next), i + 1;
      } else {
        it' := FirstNonEmptyBin(it.bin + 1);
        j := 0;
      }
    }

    /** The loop of query_handler: one reply per sample whose key intersects. */
    method Scan(intersects: Key -> bool) returns (replies: seq<Sample>)
      requires Structured()
      ensures replies == Filter(intersects, Flatten(table))
    {
      hide Flatten, Filter;
      FilterNothing(intersects);
      replies := [];
      var it := Begin();
      ghost var i := 0;
      ghost var rest := Flatten(table);
      var end := IsEnd(it);
      while !end
        invariant At(it, i) && end == (it.bin >= bins.Length) && rest == Rest(table, it.bin, i)
        invariant replies + Filter(intersects, rest) == Filter(intersects, Flatten(table))
        decreases |rest|
      {
        var sample;
        sample, it, i := Next(it, i);
        rest := Rest(table, it.bin, i);
        FilterStep(intersects, replies, sample, rest);
        if intersects(sample.key) {
          replies := replies + [sample];
        }
        end := IsEnd(it);
      }
    }

    /** query_handler answers with exactly the stored entries that intersect. */
    method Query(intersects: Key -> bool) returns (replies: seq<Sample>)
      requires Valid()
      ensures DistinctKeys(replies)
      ensures forall s: Sample ::
                s in replies <==> s.key in contents && contents[s.key] == s.payload && intersects(s.key)
    {
      QueryAnswers(table, contents, intersects);
      replies := Scan(intersects);
    }
  }

  /** sub_handler over a stream of events: the table ends as the map they make slot by
      slot, which is their finite map when no event meets another key in its slot. */
  method Subscribe(numBins: nat, events: seq<Event>) returns (t: Table)
    requires numBins > 0
    ensures t.Valid() && t.contents == ApplySlots(numBins, events) && t.table == Apply(Empty(numBins), events)
    ensures Apart(numBins, events) ==> t.contents == ApplyMap(map[], events)
    ensures Follows(numBins, events) <==> Apart(numBins, events)
  {
    hide Apply, ApplySlots, ApplyMap, Apart, Follows, ApplyOne, ApplyOneSlot, Empty, Table.Valid, Table.Structured;
    hide WellPlaced, Represents;
    t := new Table(numBins);
    RunNothing(numBins);
    for i := 0 to |events|
      invariant t.Valid() && fresh(t) && fresh(t.bins) && fresh(t.owner.Keys) && t.bins.Length == numBins
      invariant t.contents == ApplySlots(numBins, events[..i])
      invariant t.table == Apply(Empty(numBins), events[..i])
    {
      RunNext(numBins, events, i);
      t.Receive(events[i]);
    }
    assert events[..|events|] == events;
    RunRefinesMap(numBins, events);
  }
}
