/** A k-bucket, updated in place. Each method is proved to do what the function
    of the same name in `Buckets` says. */
module KBuckets {
  import opened XorMetric
  import opened Nodes
  import opened Selection
  import B = Buckets

  class KBucket {
    const lo: Id
    const hi: Id
    const ksize: nat
    /** Primary contacts, least recently seen first. */
    var nodes: seq<Node>
    /** Nodes that arrived when the bucket was full. */
    var waiting: seq<Node>

    ghost function View(): (b: B.Bucket)
      reads this
    {
      B.Bucket(lo, hi, nodes, waiting, ksize)
    }

    constructor (lo: Id, hi: Id, ksize: nat)
      ensures View() == B.Bucket(lo, hi, [], [], ksize)
    {
      this.lo, this.hi, this.ksize := lo, hi, ksize;
      nodes, waiting := [], [];
    }

    method AddNode(n: Node) returns (added: bool)
      modifies this
      ensures (View(), added) == B.AddNode(old(View()), n)
    {
      var pos := Position(nodes, n.id);
      if pos.Some? {
        nodes := RemoveAt(nodes, pos.value);
        nodes := nodes + [n];
        return true;
      }
      if |nodes| < ksize {
        nodes := nodes + [n];
        return true;
      }
      pos := Position(waiting, n.id);
      if pos.Some? {
        waiting := RemoveAt(waiting, pos.value);
      }
      waiting := waiting + [n];
      TrimWaiting();
      return false;
    }

    /** Drop the oldest replacements beyond five times the bucket size. */
    method TrimWaiting()
      modifies this`waiting
      ensures waiting == B.Latest(old(waiting), 5 * ksize)
    {
      ghost var dropped := 0;
      ghost var all := waiting;
      while |waiting| > 5 * ksize
        invariant 0 <= dropped <= |all| && waiting == all[dropped..]
        invariant dropped == 0 || |waiting| >= 5 * ksize
        decreases |waiting|
      {
        waiting := waiting[1..];
        dropped := dropped + 1;
      }
    }

    method RemoveNode(id: Id)
      modifies this
      ensures View() == B.RemoveNode(old(View()), id)
    {
      waiting := Without(waiting, id);
      var pos := Position(nodes, id);
      if pos.Some? {
        nodes := RemoveAt(nodes, pos.value);
        if waiting != [] {
          var promoted := Last(waiting);
          waiting := Front(waiting);
          nodes := nodes + [promoted];
        }
      }
    }

    predicate Contains(id: Id)
      reads this
    {
      Position(nodes, id).Some?
    }

    /** The two halves, filled by adding the contacts one by one. */
    method Split() returns (low: KBucket, high: KBucket)
      requires lo < hi && B.ListsOk(View())
      ensures fresh(low) && fresh(high) && low != high
      ensures (low.View(), high.View()) == B.Split(View())
    {
      var mid := lo + (hi - lo) / 2;
      SplitContents();
      HalvesEnd(nodes + waiting);
      low, high := SplitAt(mid, nodes + waiting);
    }

    method SplitAt(mid: nat, all: seq<Node>) returns (low: KBucket, high: KBucket)
      requires lo <= mid < hi && Distinct(all) && |all| <= 6 * ksize
      requires forall n :: n in all ==> lo <= n.id <= hi
      ensures fresh(low) && fresh(high) && low != high
      ensures low.View() == Half(all, |all|, lo, mid) && high.View() == Half(all, |all|, mid + 1, hi)
    {
      low := new KBucket(lo, mid, ksize);
      high := new KBucket(mid + 1, hi, ksize);
      var i := 0;
      while i < |all|
        invariant 0 <= i <= |all|
        invariant low.View() == Half(all, i, lo, mid)
        invariant high.View() == Half(all, i, mid + 1, hi)
      {
        SplitOne(low, high, mid, all, i);
        i := i + 1;
      }
    }

    /** The half of `[from, to]` after the first `i` nodes. */
    ghost function Half(all: seq<Node>, i: nat, from: Id, to: Id): (b: B.Bucket)
      requires i <= |all|
    {
      B.Fill(from, to, ksize, B.Select(all[..i], from, to))
    }

    lemma HalvesEnd(all: seq<Node>)
      requires lo < hi && all == nodes + waiting
      ensures var mid := lo + (hi - lo) / 2;
              B.Split(View()) == (Half(all, |all|, lo, mid), Half(all, |all|, mid + 1, hi))
    {
      assert all[..|all|] == all;
    }

    method SplitOne(low: KBucket, high: KBucket, mid: nat, all: seq<Node>, i: nat)
      requires low != high && lo <= mid < hi
      requires i < |all| <= 6 * ksize && Distinct(all) && lo <= all[i].id <= hi
      requires low.View() == Half(all, i, lo, mid) && high.View() == Half(all, i, mid + 1, hi)
      modifies low, high
      ensures low.View() == Half(all, i + 1, lo, mid) && high.View() == Half(all, i + 1, mid + 1, hi)
    {
      if all[i].id <= mid {
        AddToHalf(low, all, i, lo, mid);
        SplitSkip(all, i, mid + 1, hi);
      } else {
        AddToHalf(high, all, i, mid + 1, hi);
        SplitSkip(all, i, lo, mid);
      }
    }

    method AddToHalf(half: KBucket, all: seq<Node>, i: nat, from: Id, to: Id)
      requires i < |all| <= 6 * ksize && Distinct(all) && from <= all[i].id <= to
      requires half.View() == Half(all, i, from, to)
      modifies half
      ensures half.View() == Half(all, i + 1, from, to)
    {
      SplitStep(all, i, from, to);
      var _ := half.AddNode(all[i]);
    }

    lemma SplitContents()
      requires B.ListsOk(View())
      ensures Distinct(nodes + waiting) && |nodes + waiting| <= 6 * ksize
      ensures forall n :: n in nodes + waiting ==> lo <= n.id <= hi
    {
      ConcatIds(nodes, waiting);
      forall n | n in nodes + waiting
        ensures lo <= n.id <= hi
      {
        IdSetHas(nodes + waiting, n);
        assert B.Covers(View(), n.id);
      }
    }

    /** Adding the next node of a half extends the half by it. */
    lemma SplitStep(all: seq<Node>, i: nat, from: Id, to: Id)
      requires i < |all| <= 6 * ksize && Distinct(all) && from <= all[i].id <= to
      ensures B.AddNode(Half(all, i, from, to), all[i]).0 == Half(all, i + 1, from, to)
    {
      var seen := all[..i + 1];
      assert Front(seen) == all[..i];
      CutIds(all, i + 1);
      B.SelectIds(all[..i], from, to);
      B.FillStep(from, to, ksize, B.Select(all[..i], from, to), all[i]);
    }

    lemma SplitSkip(all: seq<Node>, i: nat, from: Id, to: Id)
      requires i < |all| && !(from <= all[i].id <= to)
      ensures Half(all, i + 1, from, to) == Half(all, i, from, to)
    {
      assert Front(all[..i + 1]) == all[..i];
    }

    /** Whether the primary contacts agree on a binary digit. */
    method AgreeAt(bit: nat) returns (agree: bool)
      requires nodes != []
      ensures agree <==> B.AgreeAt(nodes, bit)
    {
      agree := true;
      var j := 1;
      while j < |nodes|
        invariant 1 <= j <= |nodes|
        invariant agree <==> forall i :: 1 <= i < j ==> Bit(nodes[i].id, bit) == Bit(nodes[0].id, bit)
      {
        if Bit(nodes[j].id, bit) != Bit(nodes[0].id, bit) {
          agree := false;
        }
        j := j + 1;
      }
    }

    /** How many leading binary digits the primary contacts share. */
    method Depth() returns (d: nat)
      ensures d == B.Depth(View())
    {
      if |nodes| < 2 {
        if nodes == [] { return 0; }
        OneSharesAll(nodes, 0);
        return ID_BITS;
      }
      B.NothingShared(nodes);
      d := SharedFrom(0);
    }

    method SharedFrom(start: nat) returns (d: nat)
      requires nodes != [] && start <= ID_BITS && B.SharePrefix(nodes, start)
      ensures d == B.PrefixFrom(nodes, start)
    {
      d := start;
      while d < ID_BITS
        invariant d <= ID_BITS && B.SharePrefix(nodes, d)
        invariant B.PrefixFrom(nodes, d) == B.PrefixFrom(nodes, start)
      {
        var agree := AgreeAt(ID_BITS - 1 - d);
        B.ShareOneMore(nodes, d);
        if !agree { return; }
        d := d + 1;
      }
    }

    lemma {:induction false} OneSharesAll(s: seq<Node>, p: nat)
      requires |s| == 1 && p <= ID_BITS
      ensures B.PrefixFrom(s, p) == ID_BITS
      decreases ID_BITS - p
    {
      if p < ID_BITS {
        OneSharesAll(s, p + 1);
      }
    }
  }
}
