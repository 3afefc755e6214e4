/**
 One k-bucket of the routing table, as a value: what each operation makes of
 it, and the invariant they all keep. `KBucket` (KBucket.dfy) is the object
 that carries these operations out in place.
 */
module Buckets {
  import opened XorMetric
  import opened Nodes
  import opened Selection

  /** `nodes` are the primary contacts, least recently seen first; `waiting`
      are the replacements, the latest to arrive last. */
  datatype Bucket = Bucket(lo: Id, hi: Id, nodes: seq<Node>, waiting: seq<Node>, ksize: nat)

  predicate Covers(b: Bucket, id: Id)
  {
    b.lo <= id <= b.hi
  }

  predicate Contains(b: Bucket, id: Id)
  {
    Position(b.nodes, id).Some?
  }

  ghost predicate AllCovered(b: Bucket, ids: set<Id>)
  {
    forall id :: id in ids ==> Covers(b, id)
  }

  ghost predicate IsAligned(b: Bucket)
  {
    exists w: nat :: IsBlock(b.lo, b.hi, w)
  }

  /** Every id once, inside the block, within the sizes. */
  ghost predicate ListsOk(b: Bucket)
  {
    && Distinct(b.nodes) && Distinct(b.waiting) && IdSet(b.nodes) !! IdSet(b.waiting)
    && AllCovered(b, IdSet(b.nodes)) && AllCovered(b, IdSet(b.waiting))
    && |b.nodes| <= b.ksize
    && |b.waiting| <= 5 * b.ksize
    && (b.waiting != [] ==> |b.nodes| == b.ksize)
  }

  ghost predicate BucketOk(b: Bucket)
  {
    1 <= b.ksize && IsAligned(b) && ListsOk(b)
  }

  /** The same block and bound. */
  predicate SameBlock(b: Bucket, c: Bucket)
  {
    b.lo == c.lo && b.hi == c.hi && b.ksize == c.ksize
  }

  // --- add_node ---

  /** The last `n` nodes of `s`. */
  function Latest(s: seq<Node>, n: nat): (r: seq<Node>)
  {
    s[|s| - Min(n, |s|)..]
  }

  function Refresh(s: seq<Node>, n: Node): (r: seq<Node>)
  {
    match Position(s, n.id)
    case Some(p) => RemoveAt(s, p) + [n]
    case None => s + [n]
  }

  /** Insert or refresh `n`: true if it is primary afterwards, false if it
      could only be put on the replacement list. */
  function AddNode(b: Bucket, n: Node): (r: (Bucket, bool))
  {
    if Contains(b, n.id) || |b.nodes| < b.ksize then
      (b.(nodes := Refresh(b.nodes, n)), true)
    else
      (b.(waiting := Latest(Refresh(b.waiting, n), 5 * b.ksize)), false)
  }

  lemma RefreshIds(s: seq<Node>, n: Node)
    requires Distinct(s)
    ensures Distinct(Refresh(s, n)) && IdSet(Refresh(s, n)) == IdSet(s) + {n.id}
    ensures |Refresh(s, n)| == if n.id in IdSet(s) then |s| else |s| + 1
    ensures Last(Refresh(s, n)) == n
  {
    PositionFinds(s, n.id);
    match Position(s, n.id)
    case Some(p) =>
      RemoveAtIds(s, p);
      AppendIds(RemoveAt(s, p), n);
    case None =>
      AppendIds(s, n);
  }

  lemma LatestIds(s: seq<Node>, n: nat)
    requires Distinct(s)
    ensures Distinct(Latest(s, n)) && IdSet(Latest(s, n)) <= IdSet(s)
    ensures |Latest(s, n)| == Min(n, |s|)
    ensures 0 < n && s != [] ==> Last(s).id in IdSet(Latest(s, n))
  {
    CutIds(s, |s| - Min(n, |s|));
    if 0 < n && s != [] {
      assert Last(Latest(s, n)) == Last(s);
    }
  }

  ghost predicate AddNodeEffect(b: Bucket, n: Node, after: Bucket, added: bool)
  {
    && SameBlock(b, after)
    && (if added then
          IdSet(after.nodes) == IdSet(b.nodes) + {n.id} && after.waiting == b.waiting
        else
          && after.nodes == b.nodes && |b.nodes| == b.ksize && n.id !in IdSet(b.nodes)
          && n.id in IdSet(after.waiting)
          && IdSet(after.waiting) <= IdSet(b.waiting) + {n.id})
  }

  /** What `AddNode` keeps and what it changes. */
  lemma AddNodeOk(b: Bucket, n: Node)
    requires BucketOk(b) && Covers(b, n.id)
    ensures BucketOk(AddNode(b, n).0)
    ensures AddNodeEffect(b, n, AddNode(b, n).0, AddNode(b, n).1)
  {
    PositionFinds(b.nodes, n.id);
    var (after, added) := AddNode(b, n);
    AlignmentOfBlock(b, after);
    if added {
      RefreshIds(b.nodes, n);
      if b.waiting == [] {
        assert IdSet(b.waiting) == {};
      }
    } else {
      RefreshIds(b.waiting, n);
      LatestIds(Refresh(b.waiting, n), 5 * b.ksize);
    }
  }

  /** The lists are in the order in which their nodes were last seen: a node
      goes to the end and the others keep their places; the oldest replacements
      are the ones dropped. */
  lemma AddNodeOrder(b: Bucket, n: Node)
    requires ListsOk(b)
    ensures var (after, added) := AddNode(b, n);
            if added then after.nodes == Without(b.nodes, n.id) + [n]
            else after.waiting == Latest(Without(b.waiting, n.id) + [n], 5 * b.ksize)
  {
    RefreshOrder(b.nodes, n);
    RefreshOrder(b.waiting, n);
  }

  lemma RefreshOrder(s: seq<Node>, n: Node)
    requires Distinct(s)
    ensures Refresh(s, n) == Without(s, n.id) + [n]
  {
    PositionFinds(s, n.id);
    if n.id in IdSet(s) {
      RemoveAtIsWithout(s, Position(s, n.id).value);
    } else {
      WithoutIds(s, n.id);
    }
  }

  lemma AlignmentOfBlock(b: Bucket, after: Bucket)
    requires IsAligned(b) && SameBlock(b, after)
    ensures IsAligned(after)
  {
  }

  // --- remove_node ---

  /** Drop `id`, and let the latest replacement take a freed primary place. */
  function RemoveNode(b: Bucket, id: Id): (after: Bucket)
  {
    var waiting := Without(b.waiting, id);
    match Position(b.nodes, id)
    case None => b.(waiting := waiting)
    case Some(p) =>
      if waiting == [] then b.(nodes := RemoveAt(b.nodes, p), waiting := waiting)
      else b.(nodes := RemoveAt(b.nodes, p) + [Last(waiting)], waiting := Front(waiting))
  }

  ghost predicate RemoveNodeEffect(b: Bucket, id: Id, after: Bucket)
  {
    && SameBlock(b, after)
    && (if id !in IdSet(b.nodes) then
          after.nodes == b.nodes && after.waiting == Without(b.waiting, id)
        else if b.waiting == [] then
          && IdSet(after.nodes) == IdSet(b.nodes) - {id} && after.waiting == []
          && |after.nodes| == |b.nodes| - 1
        else
          && IdSet(after.nodes) == IdSet(b.nodes) - {id} + {Last(b.waiting).id}
          && after.waiting == Front(b.waiting)
          && |after.nodes| == |b.nodes|)
  }

  lemma RemoveNodeOk(b: Bucket, id: Id)
    requires BucketOk(b)
    ensures BucketOk(RemoveNode(b, id))
    ensures RemoveNodeEffect(b, id, RemoveNode(b, id))
  {
    AlignmentOfBlock(b, RemoveNode(b, id));
    PositionFinds(b.nodes, id);
    if id !in IdSet(b.nodes) {
      WithoutIds(b.waiting, id);
    } else if b.waiting == [] {
      RemoveShrinks(b, id, Position(b.nodes, id).value);
    } else {
      RemovePromotes(b, id, Position(b.nodes, id).value);
    }
  }

  lemma RemoveShrinks(b: Bucket, id: Id, p: nat)
    requires ListsOk(b) && id in IdSet(b.nodes) && Position(b.nodes, id) == Some(p) && b.waiting == []
    ensures ListsOk(RemoveNode(b, id)) && RemoveNodeEffect(b, id, RemoveNode(b, id))
  {
    assert RemoveNode(b, id) == b.(nodes := RemoveAt(b.nodes, p));
    RemoveAtIds(b.nodes, p);
  }

  lemma ListsFit(b: Bucket, ids: set<Id>)
    requires Distinct(b.nodes) && Distinct(b.waiting) && IdSet(b.nodes) !! IdSet(b.waiting)
    requires IdSet(b.nodes) + IdSet(b.waiting) == ids && forall id :: id in ids ==> b.lo <= id <= b.hi
    requires |b.nodes| <= b.ksize && |b.waiting| <= 5 * b.ksize && (b.waiting != [] ==> |b.nodes| == b.ksize)
    ensures ListsOk(b)
  {
  }

  lemma RemovePromotes(b: Bucket, id: Id, p: nat)
    requires ListsOk(b) && id in IdSet(b.nodes) && Position(b.nodes, id) == Some(p) && b.waiting != []
    ensures ListsOk(RemoveNode(b, id)) && RemoveNodeEffect(b, id, RemoveNode(b, id))
  {
    WithoutIds(b.waiting, id);
    var after := b.(nodes := RemoveAt(b.nodes, p) + [Last(b.waiting)], waiting := Front(b.waiting));
    assert RemoveNode(b, id) == after;
    PromotedIds(b.nodes, b.waiting, p);
    ListsFit(after, IdSet(b.nodes) - {id} + IdSet(b.waiting));
  }

  lemma PromotedIds(nodes: seq<Node>, waiting: seq<Node>, p: nat)
    requires p < |nodes| && waiting != []
    requires Distinct(nodes) && Distinct(waiting) && IdSet(nodes) !! IdSet(waiting)
    ensures var primary := RemoveAt(nodes, p) + [Last(waiting)];
            && Distinct(primary) && Distinct(Front(waiting)) && IdSet(primary) !! IdSet(Front(waiting))
            && IdSet(primary) == IdSet(nodes) - {nodes[p].id} + {Last(waiting).id}
            && IdSet(primary) + IdSet(Front(waiting)) == IdSet(nodes) - {nodes[p].id} + IdSet(waiting)
  {
    RemoveAtIds(nodes, p);
    AppendIds(RemoveAt(nodes, p), Last(waiting));
    assert IdSet(waiting) == IdSet(Front(waiting)) + {Last(waiting).id};
  }

  /** A removed id is gone from both lists. */
  lemma RemoveNodeRemoves(b: Bucket, id: Id)
    requires BucketOk(b)
    ensures id !in IdSet(RemoveNode(b, id).nodes) && id !in IdSet(RemoveNode(b, id).waiting)
  {
    RemoveNodeOk(b, id);
    WithoutIds(b.waiting, id);
  }

  /** The others keep their places, and the latest replacement comes last. */
  lemma RemoveNodeOrder(b: Bucket, id: Id)
    requires ListsOk(b) && id in IdSet(b.nodes)
    ensures RemoveNode(b, id).nodes
         == Without(b.nodes, id) + if b.waiting == [] then [] else [Last(b.waiting)]
  {
    PositionFinds(b.nodes, id);
    RemoveAtIsWithout(b.nodes, Position(b.nodes, id).value);
    WithoutIds(b.waiting, id);
  }

  // --- split ---

  function Mid(b: Bucket): (m: int)
  {
    b.lo + (b.hi - b.lo) / 2
  }

  /** The nodes with an id in `[lo, hi]`, in order. */
  function Select(s: seq<Node>, lo: int, hi: int): (r: seq<Node>)
    ensures |r| <= |s|
  {
    if s == [] then []
    else if lo <= Last(s).id <= hi then Select(Front(s), lo, hi) + [Last(s)]
    else Select(Front(s), lo, hi)
  }

  /** The bucket that results from adding the nodes of `s` in turn: the first
      `k` are primary, the others wait. */
  function Fill(lo: Id, hi: Id, k: nat, s: seq<Node>): (b: Bucket)
  {
    Bucket(lo, hi, Take(s, k), s[Min(k, |s|)..], k)
  }

  /** The two halves of a bucket: primary contacts first, then replacements. */
  function Split(b: Bucket): (r: (Bucket, Bucket))
    requires b.lo < b.hi
  {
    var mid := Mid(b);
    var all := b.nodes + b.waiting;
    (Fill(b.lo, mid, b.ksize, Select(all, b.lo, mid)),
     Fill(mid + 1, b.hi, b.ksize, Select(all, mid + 1, b.hi)))
  }

  lemma {:induction false} SelectIds(s: seq<Node>, lo: int, hi: int)
    ensures forall id :: id in IdSet(Select(s, lo, hi)) <==> id in IdSet(s) && lo <= id <= hi
    ensures Distinct(s) ==> Distinct(Select(s, lo, hi))
  {
    if s != [] {
      SelectIds(Front(s), lo, hi);
      AppendIds(Select(Front(s), lo, hi), Last(s));
    }
  }

  lemma {:induction false} SelectConcat(a: seq<Node>, b: seq<Node>, lo: int, hi: int)
    ensures Select(a + b, lo, hi) == Select(a, lo, hi) + Select(b, lo, hi)
    decreases |b|
  {
    if b == [] {
      assert a + b == a;
    } else {
      SelectConcat(a, Front(b), lo, hi);
      assert Front(a + b) == a + Front(b);
    }
  }

  /** Adding one more distinct node to a filled bucket fills it further. This
      ties the loop of `split` to `Fill`. */
  lemma FillStep(lo: Id, hi: Id, k: nat, s: seq<Node>, n: Node)
    requires n.id !in IdSet(s) && |s| < 6 * k
    ensures AddNode(Fill(lo, hi, k, s), n).0 == Fill(lo, hi, k, s + [n])
  {
    CutIds(s, Min(k, |s|));
    CutAppend(s, n, Min(k, |s|));
    if |s| < k {
      FillStepPrimary(lo, hi, k, s, n);
    } else {
      FillStepWaiting(lo, hi, k, s, n);
    }
  }

  lemma FillStepPrimary(lo: Id, hi: Id, k: nat, s: seq<Node>, n: Node)
    requires n.id !in IdSet(s) && |s| < k
    ensures AddNode(Fill(lo, hi, k, s), n).0 == Fill(lo, hi, k, s + [n])
  {
    PositionFinds(s, n.id);
    assert Take(s, k) == s && Take(s + [n], k) == s + [n];
  }

  lemma FillStepWaiting(lo: Id, hi: Id, k: nat, s: seq<Node>, n: Node)
    requires k <= |s| < 6 * k
    requires n.id !in IdSet(s[..k]) && n.id !in IdSet(s[k..])
    ensures AddNode(Fill(lo, hi, k, s), n).0 == Fill(lo, hi, k, s + [n])
  {
    PositionFinds(s[..k], n.id);
    PositionFinds(s[k..], n.id);
    CutAppend(s, n, k);
    var waiting := s[k..] + [n];
    assert Latest(waiting, 5 * k) == waiting;
  }

  lemma FillOk(lo: Id, hi: Id, k: nat, s: seq<Node>, w: nat)
    requires 1 <= k && IsBlock(lo, hi, w) && Distinct(s) && |s| <= 6 * k
    requires forall id :: id in IdSet(s) ==> lo <= id <= hi
    ensures BucketOk(Fill(lo, hi, k, s))
  {
    assert IsBlock(Fill(lo, hi, k, s).lo, Fill(lo, hi, k, s).hi, w);
    FillLists(lo, hi, k, s);
  }

  lemma FillLists(lo: Id, hi: Id, k: nat, s: seq<Node>)
    requires Distinct(s) && |s| <= 6 * k
    requires forall id :: id in IdSet(s) ==> lo <= id <= hi
    ensures ListsOk(Fill(lo, hi, k, s))
  {
    var cut := Min(k, |s|);
    CutIds(s, cut);
    ListsFit(Fill(lo, hi, k, s), IdSet(s));
  }

  lemma FillIds(lo: Id, hi: Id, k: nat, s: seq<Node>)
    ensures AllIds(Fill(lo, hi, k, s)) == IdSet(s)
  {
    CutIds(s, Min(k, |s|));
  }

  /** Primary contacts come first, so all of them stay primary. */
  lemma FillKeepsPrimaries(lo: Id, hi: Id, k: nat, primary: seq<Node>, rest: seq<Node>)
    requires |primary| <= k
    ensures IdSet(primary) <= IdSet(Fill(lo, hi, k, primary + rest).nodes)
  {
    var nodes := Fill(lo, hi, k, primary + rest).nodes;
    assert nodes[..|primary|] == primary;
    CutIds(nodes, |primary|);
  }

  /** A bucket of at least two ids has a block on each side of its midpoint. */
  lemma SplitBlocks(b: Bucket) returns (w: nat)
    requires IsAligned(b) && b.lo < b.hi
    ensures IsBlock(b.lo, Mid(b), w) && IsBlock(Mid(b) + 1, b.hi, w)
  {
    var v: nat :| IsBlock(b.lo, b.hi, v);
    assert v != 0;
    w := v - 1;
    HalvesAreBlocks(b.lo, b.hi, w);
  }

  ghost function AllIds(b: Bucket): (ids: set<Id>)
  {
    IdSet(b.nodes) + IdSet(b.waiting)
  }

  lemma HalfOk(b: Bucket, lo: Id, hi: Id, w: nat)
    requires BucketOk(b) && IsBlock(lo, hi, w)
    ensures var half := Fill(lo, hi, b.ksize, Select(b.nodes + b.waiting, lo, hi));
            && BucketOk(half)
            && forall id :: id in AllIds(half) <==> id in AllIds(b) && lo <= id <= hi
  {
    var all := b.nodes + b.waiting;
    ConcatIds(b.nodes, b.waiting);
    SelectIds(all, lo, hi);
    FillOk(lo, hi, b.ksize, Select(all, lo, hi), w);
    FillIds(lo, hi, b.ksize, Select(all, lo, hi));
  }

  lemma SplitHalves(b: Bucket)
    requires BucketOk(b) && b.lo < b.hi
    ensures BucketOk(Split(b).0) && BucketOk(Split(b).1)
    ensures forall id :: id in AllIds(Split(b).0) <==> id in AllIds(b) && id <= Mid(b)
    ensures forall id :: id in AllIds(Split(b).1) <==> id in AllIds(b) && Mid(b) < id
  {
    var w := SplitBlocks(b);
    HalfOk(b, b.lo, Mid(b), w);
    HalfOk(b, Mid(b) + 1, b.hi, w);
  }

  lemma SplitKeepsPrimaries(b: Bucket)
    requires BucketOk(b) && b.lo < b.hi
    ensures IdSet(b.nodes) <= IdSet(Split(b).0.nodes) + IdSet(Split(b).1.nodes)
  {
    var mid := Mid(b);
    HalfKeepsPrimaries(b, b.lo, mid);
    HalfKeepsPrimaries(b, mid + 1, b.hi);
  }

  lemma HalfKeepsPrimaries(b: Bucket, lo: Id, hi: Id)
    requires BucketOk(b)
    ensures forall id :: id in IdSet(b.nodes) && lo <= id <= hi ==>
              id in IdSet(Fill(lo, hi, b.ksize, Select(b.nodes + b.waiting, lo, hi)).nodes)
  {
    SelectConcat(b.nodes, b.waiting, lo, hi);
    SelectIds(b.nodes, lo, hi);
    FillKeepsPrimaries(lo, hi, b.ksize, Select(b.nodes, lo, hi), Select(b.waiting, lo, hi));
  }

  /** A split loses no contact, invents none, and demotes no primary. */
  lemma SplitOk(b: Bucket)
    requires BucketOk(b) && b.lo < b.hi
    ensures BucketOk(Split(b).0) && BucketOk(Split(b).1)
    ensures AllIds(Split(b).0) + AllIds(Split(b).1) == AllIds(b)
    ensures IdSet(b.nodes) <= IdSet(Split(b).0.nodes) + IdSet(Split(b).1.nodes)
    ensures b.waiting == [] ==> Split(b).0.waiting == [] && Split(b).1.waiting == []
  {
    SplitHalves(b);
    SplitKeepsPrimaries(b);
  }

  // --- depth ---

  /** All nodes have the same `p` leading binary digits. */
  predicate SharePrefix(s: seq<Node>, p: nat)
    requires p <= ID_BITS
  {
    forall i, j :: 0 <= i < |s| && 0 <= j < |s| ==>
      Shift(s[i].id, ID_BITS - p) == Shift(s[j].id, ID_BITS - p)
  }

  /** How many leading binary digits the primary contacts share. */
  function PrefixFrom(s: seq<Node>, p: nat): (d: nat)
    requires p <= ID_BITS
    ensures p <= d <= ID_BITS
    decreases ID_BITS - p
  {
    if p == ID_BITS || !SharePrefix(s, p + 1) then p else PrefixFrom(s, p + 1)
  }

  function Depth(b: Bucket): (d: nat)
    ensures d <= ID_BITS
  {
    if b.nodes == [] then 0 else PrefixFrom(b.nodes, 0)
  }

  lemma {:induction false} ShiftBit(x: nat, w: nat)
    ensures Shift(x, w) == 2 * Shift(x, w + 1) + Bit(x, w)
    decreases w
  {
    if w != 0 {
      ShiftBit(x / 2, w - 1);
    }
  }

  lemma NothingShared(s: seq<Node>)
    ensures SharePrefix(s, 0)
  {
    KeySpaceIsPow2();
    forall i | 0 <= i < |s|
      ensures Shift(s[i].id, ID_BITS) == 0
    {
      SmallShiftsToZero(s[i].id, ID_BITS);
    }
  }

  ghost predicate AgreeAt(s: seq<Node>, bit: nat)
    requires s != []
  {
    forall i :: 1 <= i < |s| ==> Bit(s[i].id, bit) == Bit(s[0].id, bit)
  }

  /** One more digit is shared exactly when all agree with the first on it. */
  lemma ShareOneMore(s: seq<Node>, p: nat)
    requires p < ID_BITS && s != [] && SharePrefix(s, p)
    ensures SharePrefix(s, p + 1) <==> AgreeAt(s, ID_BITS - 1 - p)
  {
    forall i | 0 <= i < |s|
      ensures Shift(s[i].id, ID_BITS - 1 - p)
           == 2 * Shift(s[i].id, ID_BITS - p) + Bit(s[i].id, ID_BITS - 1 - p)
    {
      ShiftBit(s[i].id, ID_BITS - 1 - p);
    }
  }

  /** The depth is the length of the longest prefix the contacts share. */
  lemma {:induction false} PrefixFromIsLongest(s: seq<Node>, p: nat)
    requires p <= ID_BITS && SharePrefix(s, p)
    ensures SharePrefix(s, PrefixFrom(s, p))
    ensures PrefixFrom(s, p) < ID_BITS ==> !SharePrefix(s, PrefixFrom(s, p) + 1)
    decreases ID_BITS - p
  {
    if p < ID_BITS && SharePrefix(s, p + 1) {
      PrefixFromIsLongest(s, p + 1);
    }
  }

  lemma DepthIsLongestPrefix(b: Bucket)
    requires b.nodes != []
    ensures SharePrefix(b.nodes, Depth(b))
    ensures Depth(b) < ID_BITS ==> !SharePrefix(b.nodes, Depth(b) + 1)
  {
    NothingShared(b.nodes);
    PrefixFromIsLongest(b.nodes, 0);
  }
}
