/**
 * The comment/reply tree of a post and the recursive helpers that rewrite it:
 * adding a reply under a comment or a nested reply, deleting a node at any depth
 * and editing the text of the node with a given id when the caller is its author.
 *
 * Every helper is written as a pair of mutually recursive functions, one over a
 * single node and one over a list of siblings (a forest), so that termination
 * follows the structure of the tree.
 */
module ReplyTree {
  import opened Wrappers

  /**
   * A top-level comment or a reply; both documents have the same shape.
   * `replies` is Missing when the document has no `replies` field at all, which
   * the helpers treat differently from an empty list. The author email is
   * compared with `===`, so it is a `Text`: a missing field, `null` or a string.
   */
  datatype Comment = Comment(
    id: string,
    authorName: Option<string>,
    authorEmail: Text,
    authorPhoto: Option<string>,
    text: string,
    createdAt: nat,
    replies: Replies)

  datatype Replies = Missing | Present(items: seq<Comment>)

  /** `c.replies || []`: the children, a missing list read as empty. */
  function Kids(c: Comment): seq<Comment>
  {
    match c.replies
    case Present(rs) => rs
    case Missing => []
  }

  /** The node itself without its children: what a preorder listing records. */
  function Strip(c: Comment): Comment
  {
    c.(replies := Missing)
  }

  // ---------------------------------------------------------------------------
  // Reference views of a forest
  // ---------------------------------------------------------------------------

  /** Every node of the forest, parents before children, siblings in order. */
  function Preorder(cs: seq<Comment>): seq<Comment>
    decreases cs
  {
    if cs == [] then [] else PreorderNode(cs[0]) + Preorder(cs[1..])
  }

  function PreorderNode(c: Comment): seq<Comment>
    decreases c
  {
    [Strip(c)] + match c.replies case Present(rs) => Preorder(rs) case Missing => []
  }

  /** Some node of the forest, at any depth, has id `x`. */
  predicate ContainsId(cs: seq<Comment>, x: string)
  {
    exists n :: n in Preorder(cs) && n.id == x
  }

  /** No two nodes of the forest share an id (ids are freshly generated ObjectIds). */
  predicate UniqueIds(cs: seq<Comment>)
  {
    DistinctIds(Preorder(cs))
  }

  predicate DistinctIds(p: seq<Comment>)
  {
    forall i, j :: 0 <= i < j < |p| ==> p[i].id != p[j].id
  }

  /** The preorder listing with every subtree rooted at a node with id `t` left out. */
  function Pruned(cs: seq<Comment>, t: string): seq<Comment>
    decreases cs
  {
    if cs == [] then [] else PrunedNode(cs[0], t) + Pruned(cs[1..], t)
  }

  function PrunedNode(c: Comment, t: string): seq<Comment>
    decreases c
  {
    if c.id == t then []
    else [Strip(c)] + match c.replies case Present(rs) => Pruned(rs, t) case Missing => []
  }

  /**
   * The preorder listing with the listing of `nr` placed right after the
   * subtree of every node with id `t` that no other node with id `t` encloses.
   */
  function Grafted(cs: seq<Comment>, t: string, nr: Comment): seq<Comment>
    decreases cs
  {
    if cs == [] then [] else GraftedNode(cs[0], t, nr) + Grafted(cs[1..], t, nr)
  }

  function GraftedNode(c: Comment, t: string, nr: Comment): seq<Comment>
    decreases c
  {
    if c.id == t then PreorderNode(c) + PreorderNode(nr)
    else [Strip(c)] + match c.replies case Present(rs) => Grafted(rs, t, nr) case Missing => []
  }

  /** A listed node with its depth: one more than the node that encloses it. */
  datatype Entry = Entry(depth: nat, node: Comment)

  /**
   * The depth listing: the preorder listing of a forest whose top-level nodes
   * sit at depth `d`, each node with its depth. Unlike the preorder listing it
   * fixes the nesting: it determines the forest (OutlineDetermines).
   */
  function Outline(cs: seq<Comment>, d: nat): seq<Entry>
    decreases cs
  {
    if cs == [] then [] else OutlineNode(cs[0], d) + Outline(cs[1..], d)
  }

  function OutlineNode(c: Comment, d: nat): seq<Entry>
    decreases c
  {
    [Entry(d, Strip(c))] + match c.replies case Present(rs) => Outline(rs, d + 1) case Missing => []
  }

  /** The depth listing with every subtree rooted at a node with id `t` left out; every other node keeps its depth. */
  function PrunedOutline(cs: seq<Comment>, t: string, d: nat): seq<Entry>
    decreases cs
  {
    if cs == [] then [] else PrunedOutlineNode(cs[0], t, d) + PrunedOutline(cs[1..], t, d)
  }

  function PrunedOutlineNode(c: Comment, t: string, d: nat): seq<Entry>
    decreases c
  {
    if c.id == t then []
    else [Entry(d, Strip(c))] + match c.replies case Present(rs) => PrunedOutline(rs, t, d + 1) case Missing => []
  }

  /**
   * The depth listing with the listing of `nr`, one level deeper, right after
   * the subtree of every node with id `t` that no such node encloses: there
   * `nr` is the last child of that node.
   */
  function GraftedOutline(cs: seq<Comment>, t: string, nr: Comment, d: nat): seq<Entry>
    decreases cs
  {
    if cs == [] then [] else GraftedOutlineNode(cs[0], t, nr, d) + GraftedOutline(cs[1..], t, nr, d)
  }

  function GraftedOutlineNode(c: Comment, t: string, nr: Comment, d: nat): seq<Entry>
    decreases c
  {
    if c.id == t then OutlineNode(c, d) + OutlineNode(nr, d + 1)
    else [Entry(d, Strip(c))] + match c.replies case Present(rs) => GraftedOutline(rs, t, nr, d + 1) case Missing => []
  }

  /** The position of the first entry at depth `d` or less, or the length when there is none. */
  function FirstShallow(o: seq<Entry>, d: nat): nat
    decreases o
  {
    if o == [] then 0 else if o[0].depth <= d then 0 else 1 + FirstShallow(o[1..], d)
  }

  /** The first node in preorder with id `t`, together with its children. */
  function FindNode(cs: seq<Comment>, t: string): Option<Comment>
    decreases cs
  {
    if cs == [] then None
    else match FindInNode(cs[0], t)
      case Some(n) => Some(n)
      case None => FindNode(cs[1..], t)
  }

  function FindInNode(c: Comment, t: string): Option<Comment>
    decreases c
  {
    if c.id == t then Some(c)
    else match c.replies case Present(rs) => FindNode(rs, t) case Missing => None
  }

  /** Every missing `replies` list, at any depth, replaced by an empty one. */
  function Normalized(cs: seq<Comment>): seq<Comment>
    decreases cs
  {
    if cs == [] then [] else [NormalizedNode(cs[0])] + Normalized(cs[1..])
  }

  function NormalizedNode(c: Comment): Comment
    decreases c
  {
    c.(replies := Present(match c.replies case Present(rs) => Normalized(rs) case Missing => []))
  }

  /** Two forests have the same nodes (ids, authors, dates), arranged the same way. */
  predicate SameShape(a: seq<Comment>, b: seq<Comment>)
    decreases a
  {
    |a| == |b| && (a != [] ==> SameNodeShape(a[0], b[0]) && SameShape(a[1..], b[1..]))
  }

  predicate SameNodeShape(x: Comment, y: Comment)
    decreases x
  {
    && x.id == y.id
    && x.authorName == y.authorName
    && x.authorEmail == y.authorEmail
    && x.authorPhoto == y.authorPhoto
    && x.createdAt == y.createdAt
    && x.replies.Present? == y.replies.Present?
    && (match x.replies
        case Missing => true
        case Present(rs) => SameShape(rs, y.replies.items))
  }

  /** Each node with id `t` and author `email` has its text replaced by `newText`. */
  function Edited(p: seq<Comment>, t: string, newText: string, email: Text): (r: seq<Comment>)
    ensures |r| == |p|
  {
    if p == [] then []
    else
      var n := p[0];
      [if n.id == t && n.authorEmail == email then n.(text := newText) else n] + Edited(p[1..], t, newText, email)
  }

  /** `a` is obtained from `b` by leaving elements out. */
  predicate IsSubsequence<T(==)>(a: seq<T>, b: seq<T>)
    decreases |b|
  {
    if a == [] then true
    else if b == [] then false
    else if a[0] == b[0] then IsSubsequence(a[1..], b[1..])
    else IsSubsequence(a, b[1..])
  }

  // ---------------------------------------------------------------------------
  // The helpers of the post routes
  // ---------------------------------------------------------------------------

  /**
   * deleteReplyRecursive: drop every node with id `t`, at any depth; each kept
   * node gets its children processed the same way, a missing list becoming [].
   */
  function DeleteReply(cs: seq<Comment>, t: string): seq<Comment>
    decreases cs
  {
    if cs == [] then []
    else if cs[0].id == t then DeleteReply(cs[1..], t)
    else [DeleteInNode(cs[0], t)] + DeleteReply(cs[1..], t)
  }

  function DeleteInNode(c: Comment, t: string): Comment
    decreases c
  {
    c.(replies := Present(match c.replies case Present(rs) => DeleteReply(rs, t) case Missing => []))
  }

  /**
   * updateReplyRecursive: the node with id `t` gets `newText` if its author is
   * `email`; the helper does not look below a node with id `t`, and it returns
   * a node whose children are missing or empty exactly as it was.
   */
  function UpdateReply(cs: seq<Comment>, t: string, newText: string, email: Text): seq<Comment>
    decreases cs
  {
    if cs == [] then [] else [UpdateInNode(cs[0], t, newText, email)] + UpdateReply(cs[1..], t, newText, email)
  }

  function UpdateInNode(c: Comment, t: string, newText: string, email: Text): Comment
    decreases c
  {
    if c.id == t then (if c.authorEmail == email then c.(text := newText) else c)
    else match c.replies
      case Present(rs) => if |rs| > 0 then c.(replies := Present(UpdateReply(rs, t, newText, email))) else c
      case Missing => c
  }

  /**
   * addNestedReplyRecursive: append `nr` to the children of every node with id
   * `t`, without descending into such a node; every other node is rebuilt with
   * its children (a missing list read as []) processed the same way.
   */
  function AddNestedReplyRecursive(rs: seq<Comment>, t: string, nr: Comment): seq<Comment>
    decreases rs
  {
    if rs == [] then [] else [AddInNode(rs[0], t, nr)] + AddNestedReplyRecursive(rs[1..], t, nr)
  }

  function AddInNode(r: Comment, t: string, nr: Comment): Comment
    decreases r
  {
    if r.id == t then r.(replies := Present(Kids(r) + [nr]))
    else r.(replies := Present(match r.replies case Present(k) => AddNestedReplyRecursive(k, t, nr) case Missing => []))
  }

  /** addNestedReply: only the top-level comments with id `commentId` get their replies rewritten. */
  function AddNestedReply(cs: seq<Comment>, commentId: string, parentReplyId: string, nr: Comment): (r: seq<Comment>)
    ensures |r| == |cs|
    ensures forall i :: 0 <= i < |cs| && cs[i].id != commentId ==> r[i] == cs[i]
    ensures forall i :: 0 <= i < |cs| ==> Strip(r[i]) == Strip(cs[i])
    ensures forall i :: 0 <= i < |cs| && cs[i].id == commentId ==> Kids(r[i]) == AddNestedReplyRecursive(Kids(cs[i]), parentReplyId, nr)
  {
    if cs == [] then []
    else
      var c := cs[0];
      var c' := if c.id == commentId then c.(replies := Present(AddNestedReplyRecursive(Kids(c), parentReplyId, nr))) else c;
      [c'] + AddNestedReply(cs[1..], commentId, parentReplyId, nr)
  }

  /** The top-level branch of the add-reply route: append `nr` to the comments with id `commentId`. */
  function AddTopLevelReply(cs: seq<Comment>, commentId: string, nr: Comment): (r: seq<Comment>)
    ensures |r| == |cs|
    ensures forall i :: 0 <= i < |cs| && cs[i].id != commentId ==> r[i] == cs[i]
    ensures forall i :: 0 <= i < |cs| ==> Strip(r[i]) == Strip(cs[i])
    ensures forall i :: 0 <= i < |cs| && cs[i].id == commentId ==> Kids(r[i]) == Kids(cs[i]) + [nr]
  {
    if cs == [] then []
    else
      var c := cs[0];
      var c' := if c.id == commentId then c.(replies := Present(Kids(c) + [nr])) else c;
      [c'] + AddTopLevelReply(cs[1..], commentId, nr)
  }

  // ---------------------------------------------------------------------------
  // Facts about the reference views
  // ---------------------------------------------------------------------------

  lemma {:induction false} PreorderAppend(a: seq<Comment>, b: seq<Comment>)
    ensures Preorder(a + b) == Preorder(a) + Preorder(b)
    decreases a
  {
    if a == [] {
      assert a + b == b;
    } else {
      assert (a + b)[0] == a[0];
      assert (a + b)[1..] == a[1..] + b;
      PreorderAppend(a[1..], b);
    }
  }

  lemma {:induction false} SubsequenceDropHead<T>(a: seq<T>, b: seq<T>)
    requires a != [] && IsSubsequence(a, b)
    ensures IsSubsequence(a[1..], b)
    decreases |b|, 0
  {
    if a[0] == b[0] {
      SubsequenceCons(a[1..], b[1..], b[0]);
      assert [b[0]] + b[1..] == b;
    } else {
      SubsequenceDropHead(a, b[1..]);
      SubsequenceCons(a[1..], b[1..], b[0]);
      assert [b[0]] + b[1..] == b;
    }
  }

  lemma {:induction false} SubsequenceCons<T>(a: seq<T>, b: seq<T>, x: T)
    requires IsSubsequence(a, b)
    ensures IsSubsequence(a, [x] + b)
    decreases |b|, 1
  {
    assert ([x] + b)[1..] == b;
    if a != [] && a[0] == x {
      SubsequenceDropHead(a, b);
    }
  }

  lemma {:induction false} SubsequencePrepend<T>(a: seq<T>, c: seq<T>, b: seq<T>)
    requires IsSubsequence(a, b)
    ensures IsSubsequence(a, c + b)
    decreases |c|
  {
    if c != [] {
      SubsequencePrepend(a, c[1..], b);
      SubsequenceCons(a, c[1..] + b, c[0]);
      assert [c[0]] + (c[1..] + b) == c + b;
    } else {
      assert c + b == b;
    }
  }

  lemma {:induction false} SubsequenceConcat<T>(a: seq<T>, b: seq<T>, c: seq<T>, d: seq<T>)
    requires IsSubsequence(a, b) && IsSubsequence(c, d)
    ensures IsSubsequence(a + c, b + d)
    decreases |b|
  {
    if a == [] {
      assert a + c == c;
      SubsequencePrepend(c, b, d);
    } else {
      assert b != [];
      assert (a + c)[0] == a[0] && (a + c)[1..] == a[1..] + c;
      assert (b + d)[0] == b[0] && (b + d)[1..] == b[1..] + d;
      if a[0] == b[0] {
        SubsequenceConcat(a[1..], b[1..], c, d);
      } else {
        SubsequenceConcat(a, b[1..], c, d);
      }
    }
  }

  lemma {:induction false} SubsequenceRefl<T>(a: seq<T>)
    ensures IsSubsequence(a, a)
    decreases |a|
  {
    if a != [] {
      SubsequenceRefl(a[1..]);
    }
  }

  lemma DistinctIdsSplit(a: seq<Comment>, b: seq<Comment>)
    requires DistinctIds(a + b)
    ensures DistinctIds(a) && DistinctIds(b)
    ensures forall i, j :: 0 <= i < |a| && 0 <= j < |b| ==> a[i].id != b[j].id
  {
    forall i, j | 0 <= i < |a| && 0 <= j < |b|
      ensures a[i].id != b[j].id
    {
      assert (a + b)[i] == a[i] && (a + b)[|a| + j] == b[j];
    }
    forall i, j | 0 <= i < j < |a|
      ensures a[i].id != a[j].id
    {
      assert (a + b)[i] == a[i] && (a + b)[j] == a[j];
    }
    forall i, j | 0 <= i < j < |b|
      ensures b[i].id != b[j].id
    {
      assert (a + b)[|a| + i] == b[i] && (a + b)[|a| + j] == b[j];
    }
  }

  lemma {:induction false} OutlineAppend(a: seq<Comment>, b: seq<Comment>, d: nat)
    ensures Outline(a + b, d) == Outline(a, d) + Outline(b, d)
    decreases a
  {
    if a == [] {
      assert a + b == b;
    } else {
      assert (a + b)[0] == a[0];
      assert (a + b)[1..] == a[1..] + b;
      OutlineAppend(a[1..], b, d);
    }
  }

  /** A depth listing at depth `d` goes no shallower than `d`, and a non-empty forest starts at depth `d`. */
  lemma {:induction false} OutlineDepths(cs: seq<Comment>, d: nat)
    ensures forall e :: e in Outline(cs, d) ==> e.depth >= d
    ensures cs != [] ==> Outline(cs, d) != [] && Outline(cs, d)[0] == Entry(d, Strip(cs[0]))
    decreases cs
  {
    if cs != [] {
      OutlineDepths(cs[1..], d);
      match cs[0].replies
      case Present(rs) => OutlineDepths(rs, d + 1);
      case Missing =>
    }
  }

  lemma {:induction false} FirstShallowSplit(k: seq<Entry>, r: seq<Entry>, d: nat)
    requires forall e :: e in k ==> e.depth > d
    requires r != [] ==> r[0].depth <= d
    ensures FirstShallow(k + r, d) == |k|
    decreases k
  {
    if k == [] {
      assert k + r == r;
    } else {
      assert k[0] in k;
      assert (k + r)[0] == k[0] && (k + r)[1..] == k[1..] + r;
      assert forall e :: e in k[1..] ==> e in k;
      FirstShallowSplit(k[1..], r, d);
    }
  }

  /** The depth listing of a node: the node at depth `d`, then its children's listing one level deeper. */
  lemma OutlineNodeKids(c: Comment, d: nat)
    ensures OutlineNode(c, d) == [Entry(d, Strip(c))] + Outline(Kids(c), d + 1)
    ensures NormalizedNode(c) == c.(replies := Present(Normalized(Kids(c))))
  {
  }

  /** Two listings cut where the first entry at depth `d` or less begins are cut at the same place. */
  lemma SplitAtDepth(k1: seq<Entry>, r1: seq<Entry>, k2: seq<Entry>, r2: seq<Entry>, d: nat)
    requires k1 + r1 == k2 + r2
    requires forall e :: e in k1 ==> e.depth > d
    requires forall e :: e in k2 ==> e.depth > d
    requires r1 != [] ==> r1[0].depth <= d
    requires r2 != [] ==> r2[0].depth <= d
    ensures k1 == k2 && r1 == r2
  {
    FirstShallowSplit(k1, r1, d);
    FirstShallowSplit(k2, r2, d);
    assert k1 == (k1 + r1)[..|k1|] && k2 == (k2 + r2)[..|k2|];
    assert r1 == (k1 + r1)[|k1|..] && r2 == (k2 + r2)[|k2|..];
  }

  /** The depth listing of a non-empty forest: its head, the head's children one level deeper, then the rest. */
  lemma OutlineCons(a: seq<Comment>, d: nat)
    requires a != []
    ensures Outline(a, d) == [Entry(d, Strip(a[0]))] + (Outline(Kids(a[0]), d + 1) + Outline(a[1..], d))
    ensures forall e :: e in Outline(Kids(a[0]), d + 1) ==> e.depth > d
    ensures Outline(a[1..], d) != [] ==> Outline(a[1..], d)[0].depth <= d
  {
    OutlineNodeKids(a[0], d);
    OutlineDepths(Kids(a[0]), d + 1);
    OutlineDepths(a[1..], d);
  }

  /** Equal depth listings of two non-empty forests have equal heads, equal children's listings and equal tails. */
  lemma OutlineSplit(a: seq<Comment>, b: seq<Comment>, d: nat)
    requires a != [] && Outline(a, d) == Outline(b, d)
    ensures b != [] && Strip(a[0]) == Strip(b[0])
    ensures Outline(Kids(a[0]), d + 1) == Outline(Kids(b[0]), d + 1)
    ensures Outline(a[1..], d) == Outline(b[1..], d)
  {
    OutlineDepths(a, d);
    OutlineDepths(b, d);
    OutlineCons(a, d);
    OutlineCons(b, d);
    var o := Outline(a, d);
    assert o[1..] == Outline(Kids(a[0]), d + 1) + Outline(a[1..], d);
    assert o[1..] == Outline(Kids(b[0]), d + 1) + Outline(b[1..], d);
    SplitAtDepth(Outline(Kids(a[0]), d + 1), Outline(a[1..], d), Outline(Kids(b[0]), d + 1), Outline(b[1..], d), d);
  }

  /**
   * The depth listing determines the forest, up to reading a missing reply
   * list as an empty one: two forests with the same depth listing are equal
   * once normalised.
   */
  lemma {:induction false} OutlineDetermines(a: seq<Comment>, b: seq<Comment>, d: nat)
    requires Outline(a, d) == Outline(b, d)
    ensures Normalized(a) == Normalized(b)
    decreases a
  {
    OutlineDepths(b, d);
    if a != [] {
      OutlineSplit(a, b, d);
      var x, y := a[0], b[0];
      match x.replies {
        case Present(k) => OutlineDetermines(k, Kids(y), d + 1);
        case Missing => OutlineDepths(Kids(y), d + 1);
      }
      OutlineDetermines(a[1..], b[1..], d);
      OutlineNodeKids(x, d);
      OutlineNodeKids(y, d);
      assert NormalizedNode(x) == NormalizedNode(y);
    }
  }

  // ---------------------------------------------------------------------------
  // deleteReplyRecursive
  // ---------------------------------------------------------------------------

  /**
   * Deleting lists exactly the nodes that lie outside every subtree rooted at
   * `t`, in the original order, and each of them at its original depth.
   */
  lemma {:induction false} DeleteReplyPreorder(cs: seq<Comment>, t: string, d: nat)
    ensures Preorder(DeleteReply(cs, t)) == Pruned(cs, t)
    ensures Outline(DeleteReply(cs, t), d) == PrunedOutline(cs, t, d)
    decreases cs
  {
    if cs != [] {
      DeleteReplyPreorder(cs[1..], t, d);
      if cs[0].id != t {
        DeleteInNodePreorder(cs[0], t, d);
        PreorderAppend([DeleteInNode(cs[0], t)], DeleteReply(cs[1..], t));
        OutlineAppend([DeleteInNode(cs[0], t)], DeleteReply(cs[1..], t), d);
        assert Preorder([DeleteInNode(cs[0], t)]) == PreorderNode(DeleteInNode(cs[0], t));
        assert Outline([DeleteInNode(cs[0], t)], d) == OutlineNode(DeleteInNode(cs[0], t), d);
      }
    }
  }

  lemma {:induction false} DeleteInNodePreorder(c: Comment, t: string, d: nat)
    requires c.id != t
    ensures PreorderNode(DeleteInNode(c, t)) == PrunedNode(c, t)
    ensures OutlineNode(DeleteInNode(c, t), d) == PrunedOutlineNode(c, t, d)
    decreases c
  {
    match c.replies
    case Present(rs) => DeleteReplyPreorder(rs, t, d + 1);
    case Missing =>
  }

  /** The pruned depth listing keeps the original order and depths: it is a subsequence of the depth listing. */
  lemma {:induction false} PrunedOutlineIsSubsequence(cs: seq<Comment>, t: string, d: nat)
    ensures IsSubsequence(PrunedOutline(cs, t, d), Outline(cs, d))
    decreases cs
  {
    if cs != [] {
      PrunedOutlineNodeIsSubsequence(cs[0], t, d);
      PrunedOutlineIsSubsequence(cs[1..], t, d);
      SubsequenceConcat(PrunedOutlineNode(cs[0], t, d), OutlineNode(cs[0], d), PrunedOutline(cs[1..], t, d), Outline(cs[1..], d));
    }
  }

  lemma {:induction false} PrunedOutlineNodeIsSubsequence(c: Comment, t: string, d: nat)
    ensures IsSubsequence(PrunedOutlineNode(c, t, d), OutlineNode(c, d))
    decreases c
  {
    var kids := match c.replies case Present(rs) => Outline(rs, d + 1) case Missing => [];
    var pk := match c.replies case Present(rs) => PrunedOutline(rs, t, d + 1) case Missing => [];
    assert IsSubsequence(pk, kids) by {
      match c.replies
      case Present(rs) => PrunedOutlineIsSubsequence(rs, t, d + 1);
      case Missing =>
    }
    var h := [Entry(d, Strip(c))];
    if c.id == t {
      assert IsSubsequence([], OutlineNode(c, d));
    } else {
      SubsequenceRefl(h);
      SubsequenceConcat(h, h, pk, kids);
    }
  }

  /** Deleting an id no node has only replaces each missing reply list by an empty one. */
  lemma {:induction false} DeleteReplyWithoutTarget(cs: seq<Comment>, t: string)
    requires !ContainsId(cs, t)
    ensures DeleteReply(cs, t) == Normalized(cs)
    decreases cs
  {
    if cs != [] {
      NoIdParts(cs, t);
      DeleteReplyWithoutTarget(cs[1..], t);
      match cs[0].replies
      case Present(rs) => DeleteReplyWithoutTarget(rs, t);
      case Missing =>
    }
  }

  /** deleteReplyRecursive leaves no reply list missing, at any depth. */
  lemma {:induction false} DeleteReplyNormal(cs: seq<Comment>, t: string)
    ensures Normalized(DeleteReply(cs, t)) == DeleteReply(cs, t)
    decreases cs
  {
    if cs != [] {
      DeleteReplyNormal(cs[1..], t);
      if cs[0].id != t {
        var r := DeleteReply(cs, t);
        assert r[0] == DeleteInNode(cs[0], t) && r[1..] == DeleteReply(cs[1..], t);
        match cs[0].replies {
          case Present(rs) => DeleteReplyNormal(rs, t);
          case Missing => assert Normalized([]) == [];
        }
        assert NormalizedNode(r[0]) == r[0];
        assert Normalized(r) == [NormalizedNode(r[0])] + Normalized(r[1..]);
      }
    }
  }

  lemma {:induction false} DeleteReplyAppend(a: seq<Comment>, b: seq<Comment>, t: string)
    ensures DeleteReply(a + b, t) == DeleteReply(a, t) + DeleteReply(b, t)
    decreases a
  {
    if a == [] {
      assert a + b == b;
    } else {
      assert (a + b)[0] == a[0] && (a + b)[1..] == a[1..] + b;
      DeleteReplyAppend(a[1..], b, t);
    }
  }

  /**
   * The pruned depth listing pins the delete down: a thread with that depth
   * listing is the delete's result once its missing reply lists are read as
   * empty, so every kept node stays under the parent it had.
   */
  lemma DeleteReplyDetermined(cs: seq<Comment>, t: string, other: seq<Comment>)
    requires Outline(other, 0) == PrunedOutline(cs, t, 0)
    ensures Normalized(other) == DeleteReply(cs, t)
  {
    DeleteReplyPreorder(cs, t, 0);
    OutlineDetermines(other, DeleteReply(cs, t), 0);
    DeleteReplyNormal(cs, t);
  }

  /** The pruned listing holds no node with id `t`. */
  lemma {:induction false} PrunedOmitsTarget(cs: seq<Comment>, t: string)
    ensures forall n :: n in Pruned(cs, t) ==> n.id != t
    decreases cs
  {
    if cs != [] {
      PrunedNodeOmitsTarget(cs[0], t);
      PrunedOmitsTarget(cs[1..], t);
    }
  }

  lemma {:induction false} PrunedNodeOmitsTarget(c: Comment, t: string)
    ensures forall n :: n in PrunedNode(c, t) ==> n.id != t
    decreases c
  {
    match c.replies
    case Present(rs) => PrunedOmitsTarget(rs, t);
    case Missing =>
  }

  /** The pruned listing keeps the original order: it is a subsequence of the full listing. */
  lemma {:induction false} PrunedIsSubsequence(cs: seq<Comment>, t: string)
    ensures IsSubsequence(Pruned(cs, t), Preorder(cs))
    decreases cs
  {
    if cs != [] {
      PrunedNodeIsSubsequence(cs[0], t);
      PrunedIsSubsequence(cs[1..], t);
      SubsequenceConcat(PrunedNode(cs[0], t), PreorderNode(cs[0]), Pruned(cs[1..], t), Preorder(cs[1..]));
    }
  }

  lemma {:induction false} PrunedNodeIsSubsequence(c: Comment, t: string)
    ensures IsSubsequence(PrunedNode(c, t), PreorderNode(c))
    decreases c
  {
    var kids := match c.replies case Present(rs) => Preorder(rs) case Missing => [];
    var pk := match c.replies case Present(rs) => Pruned(rs, t) case Missing => [];
    assert IsSubsequence(pk, kids) by {
      match c.replies
      case Present(rs) => PrunedIsSubsequence(rs, t);
      case Missing =>
    }
    if c.id == t {
      assert IsSubsequence([], PreorderNode(c));
    } else {
      SubsequenceRefl([Strip(c)]);
      SubsequenceConcat([Strip(c)], [Strip(c)], pk, kids);
    }
  }

  /** When no node has id `t`, nothing is pruned. */
  lemma {:induction false} PrunedWithoutTarget(cs: seq<Comment>, t: string)
    requires !ContainsId(cs, t)
    ensures Pruned(cs, t) == Preorder(cs)
    decreases cs
  {
    if cs != [] {
      assert Preorder(cs) == PreorderNode(cs[0]) + Preorder(cs[1..]);
      assert !ContainsId(cs[1..], t) by {
        forall n | n in Preorder(cs[1..]) ensures n.id != t {
          assert n in Preorder(cs);
        }
      }
      PrunedWithoutTarget(cs[1..], t);
      assert Strip(cs[0]) in Preorder(cs);
      match cs[0].replies
      case Present(rs) =>
        assert !ContainsId(rs, t) by {
          forall n | n in Preorder(rs) ensures n.id != t {
            assert n in PreorderNode(cs[0]);
            assert n in Preorder(cs);
          }
        }
        PrunedWithoutTarget(rs, t);
      case Missing =>
    }
  }

  /** deleteReplyRecursive leaves no node with id `t`, at any depth. */
  lemma DeleteReplyRemovesTarget(cs: seq<Comment>, t: string)
    ensures !ContainsId(DeleteReply(cs, t), t)
  {
    DeleteReplyPreorder(cs, t, 0);
    PrunedOmitsTarget(cs, t);
  }

  /**
   * deleteReplyRecursive keeps every other node in its original order and at
   * its original depth: the result's depth listing is a subsequence of the
   * original one, and a forest without `t` keeps every node where it was,
   * a missing reply list becoming an empty one.
   */
  lemma DeleteReplyKeepsOthers(cs: seq<Comment>, t: string)
    ensures IsSubsequence(Preorder(DeleteReply(cs, t)), Preorder(cs))
    ensures IsSubsequence(Outline(DeleteReply(cs, t), 0), Outline(cs, 0))
    ensures !ContainsId(cs, t) ==> DeleteReply(cs, t) == Normalized(cs)
    ensures !ContainsId(cs, t) ==> Preorder(DeleteReply(cs, t)) == Preorder(cs)
  {
    DeleteReplyPreorder(cs, t, 0);
    PrunedIsSubsequence(cs, t);
    PrunedOutlineIsSubsequence(cs, t, 0);
    if !ContainsId(cs, t) {
      PrunedWithoutTarget(cs, t);
      DeleteReplyWithoutTarget(cs, t);
    }
  }

  /** Applying deleteReplyRecursive twice is the same as applying it once. */
  lemma {:induction false} DeleteReplyIdempotent(cs: seq<Comment>, t: string)
    ensures DeleteReply(DeleteReply(cs, t), t) == DeleteReply(cs, t)
    decreases cs
  {
    if cs != [] {
      DeleteReplyIdempotent(cs[1..], t);
      if cs[0].id != t {
        var d := DeleteReply(cs, t);
        assert d[0] == DeleteInNode(cs[0], t) && d[1..] == DeleteReply(cs[1..], t);
        DeleteInNodeIdempotent(cs[0], t);
      }
    }
  }

  lemma {:induction false} DeleteInNodeIdempotent(c: Comment, t: string)
    ensures DeleteInNode(DeleteInNode(c, t), t) == DeleteInNode(c, t)
    decreases c
  {
    match c.replies
    case Present(rs) => DeleteReplyIdempotent(rs, t);
    case Missing =>
  }

  // ---------------------------------------------------------------------------
  // updateReplyRecursive
  // ---------------------------------------------------------------------------

  lemma {:induction false} SameShapeRefl(cs: seq<Comment>)
    ensures SameShape(cs, cs)
    decreases cs
  {
    if cs != [] {
      SameNodeShapeRefl(cs[0]);
      SameShapeRefl(cs[1..]);
    }
  }

  lemma {:induction false} SameNodeShapeRefl(c: Comment)
    ensures SameNodeShape(c, c)
    decreases c
  {
    match c.replies
    case Present(rs) => SameShapeRefl(rs);
    case Missing =>
  }

  /** updateReplyRecursive never adds, removes or reorders nodes, and keeps every id and author. */
  lemma {:induction false} UpdateReplySameShape(cs: seq<Comment>, t: string, newText: string, email: Text)
    ensures SameShape(UpdateReply(cs, t, newText, email), cs)
    decreases cs
  {
    if cs != [] {
      var u := UpdateReply(cs, t, newText, email);
      assert u[0] == UpdateInNode(cs[0], t, newText, email) && u[1..] == UpdateReply(cs[1..], t, newText, email);
      UpdateInNodeSameShape(cs[0], t, newText, email);
      UpdateReplySameShape(cs[1..], t, newText, email);
    }
  }

  lemma {:induction false} UpdateInNodeSameShape(c: Comment, t: string, newText: string, email: Text)
    ensures SameNodeShape(UpdateInNode(c, t, newText, email), c)
    decreases c
  {
    SameNodeShapeRefl(c);
    if c.id != t {
      match c.replies
      case Present(rs) => UpdateReplySameShape(rs, t, newText, email);
      case Missing =>
    } else {
      SameNodeShapeRefl(c.(text := newText));
    }
  }

  lemma {:induction false} EditedAppend(a: seq<Comment>, b: seq<Comment>, t: string, newText: string, email: Text)
    ensures Edited(a + b, t, newText, email) == Edited(a, t, newText, email) + Edited(b, t, newText, email)
    decreases a
  {
    if a == [] {
      assert a + b == b;
    } else {
      assert (a + b)[0] == a[0] && (a + b)[1..] == a[1..] + b;
      EditedAppend(a[1..], b, t, newText, email);
    }
  }

  lemma {:induction false} EditedWithoutTarget(p: seq<Comment>, t: string, newText: string, email: Text)
    requires forall i :: 0 <= i < |p| ==> p[i].id != t
    ensures Edited(p, t, newText, email) == p
    decreases p
  {
    if p != [] {
      EditedWithoutTarget(p[1..], t, newText, email);
    }
  }

  /**
   * With unique ids, updateReplyRecursive changes exactly one thing: the text of
   * the node with id `t`, and only when that node's author is `email`.
   */
  lemma {:induction false} UpdateReplyEditsTarget(cs: seq<Comment>, t: string, newText: string, email: Text)
    requires UniqueIds(cs)
    ensures Preorder(UpdateReply(cs, t, newText, email)) == Edited(Preorder(cs), t, newText, email)
    decreases cs
  {
    if cs != [] {
      var u := UpdateReply(cs, t, newText, email);
      assert u[0] == UpdateInNode(cs[0], t, newText, email) && u[1..] == UpdateReply(cs[1..], t, newText, email);
      DistinctIdsSplit(PreorderNode(cs[0]), Preorder(cs[1..]));
      UpdateInNodeEditsTarget(cs[0], t, newText, email);
      UpdateReplyEditsTarget(cs[1..], t, newText, email);
      EditedAppend(PreorderNode(cs[0]), Preorder(cs[1..]), t, newText, email);
    }
  }

  lemma {:induction false} UpdateInNodeEditsTarget(c: Comment, t: string, newText: string, email: Text)
    requires DistinctIds(PreorderNode(c))
    ensures PreorderNode(UpdateInNode(c, t, newText, email)) == Edited(PreorderNode(c), t, newText, email)
    decreases c
  {
    var below := match c.replies case Present(rs) => Preorder(rs) case Missing => [];
    assert PreorderNode(c) == [Strip(c)] + below;
    DistinctIdsSplit([Strip(c)], below);
    EditedAppend([Strip(c)], below, t, newText, email);
    if c.id == t {
      EditedWithoutTarget(below, t, newText, email);
    } else {
      match c.replies
      case Present(rs) =>
        if |rs| > 0 {
          UpdateReplyEditsTarget(rs, t, newText, email);
        } else {
          assert below == [];
        }
      case Missing =>
    }
  }

  // ---------------------------------------------------------------------------
  // addNestedReplyRecursive
  // ---------------------------------------------------------------------------

  lemma {:induction false} NormalizedPreorder(cs: seq<Comment>)
    ensures Preorder(Normalized(cs)) == Preorder(cs)
    decreases cs
  {
    if cs != [] {
      var m := Normalized(cs);
      assert m[0] == NormalizedNode(cs[0]) && m[1..] == Normalized(cs[1..]);
      NormalizedNodePreorder(cs[0]);
      NormalizedPreorder(cs[1..]);
    }
  }

  lemma {:induction false} NormalizedNodePreorder(c: Comment)
    ensures PreorderNode(NormalizedNode(c)) == PreorderNode(c)
    decreases c
  {
    match c.replies
    case Present(rs) => NormalizedPreorder(rs);
    case Missing =>
  }

  /** Adding a reply never loses or reorders an existing node. */
  lemma {:induction false} AddNestedReplyKeepsNodes(rs: seq<Comment>, t: string, nr: Comment)
    ensures IsSubsequence(Preorder(rs), Preorder(AddNestedReplyRecursive(rs, t, nr)))
    decreases rs
  {
    if rs != [] {
      var a := AddNestedReplyRecursive(rs, t, nr);
      assert a[0] == AddInNode(rs[0], t, nr) && a[1..] == AddNestedReplyRecursive(rs[1..], t, nr);
      AddInNodeKeepsNodes(rs[0], t, nr);
      AddNestedReplyKeepsNodes(rs[1..], t, nr);
      SubsequenceConcat(PreorderNode(rs[0]), PreorderNode(a[0]), Preorder(rs[1..]), Preorder(a[1..]));
    }
  }

  lemma {:induction false} AddInNodeKeepsNodes(r: Comment, t: string, nr: Comment)
    ensures IsSubsequence(PreorderNode(r), PreorderNode(AddInNode(r, t, nr)))
    decreases r
  {
    var r' := AddInNode(r, t, nr);
    assert Strip(r') == Strip(r);
    SubsequenceRefl([Strip(r)]);
    var below := match r.replies case Present(k) => Preorder(k) case Missing => [];
    assert PreorderNode(r) == [Strip(r)] + below;
    if r.id == t {
      PreorderAppend(Kids(r), [nr]);
      assert Preorder(Kids(r)) == below;
      SubsequenceRefl(below);
      SubsequenceConcat(below, below, [], Preorder([nr]));
      assert below + [] == below;
      SubsequenceConcat([Strip(r)], [Strip(r)], below, below + Preorder([nr]));
      assert PreorderNode(r') == [Strip(r)] + (below + Preorder([nr]));
    } else {
      match r.replies
      case Present(k) =>
        AddNestedReplyKeepsNodes(k, t, nr);
        SubsequenceConcat([Strip(r)], [Strip(r)], below, Preorder(AddNestedReplyRecursive(k, t, nr)));
      case Missing =>
        SubsequenceConcat([Strip(r)], [Strip(r)], [], []);
    }
  }

  /**
   * When no node has id `t`, adding a nested reply leaves the forest as it was,
   * except that every missing `replies` list becomes [] (which lists the same nodes).
   */
  lemma {:induction false} AddNestedReplyWithoutParent(rs: seq<Comment>, t: string, nr: Comment)
    requires !ContainsId(rs, t)
    ensures AddNestedReplyRecursive(rs, t, nr) == Normalized(rs)
    ensures Preorder(AddNestedReplyRecursive(rs, t, nr)) == Preorder(rs)
    decreases rs
  {
    if rs != [] {
      assert Preorder(rs) == PreorderNode(rs[0]) + Preorder(rs[1..]);
      assert !ContainsId(rs[1..], t) by {
        forall n | n in Preorder(rs[1..]) ensures n.id != t {
          assert n in Preorder(rs);
        }
      }
      assert Strip(rs[0]) in Preorder(rs);
      AddNestedReplyWithoutParent(rs[1..], t, nr);
      match rs[0].replies
      case Present(k) =>
        assert !ContainsId(k, t) by {
          forall n | n in Preorder(k) ensures n.id != t {
            assert n in PreorderNode(rs[0]);
            assert n in Preorder(rs);
          }
        }
        AddNestedReplyWithoutParent(k, t, nr);
      case Missing =>
    }
    NormalizedPreorder(rs);
  }

  /**
   * The first node with id `t` (which no earlier node encloses) ends up with
   * `nr` appended to its own children and nothing else changed below it; when
   * there is no such node, none appears.
   */
  lemma {:induction false} AddNestedReplyAppendsToParent(rs: seq<Comment>, t: string, nr: Comment)
    ensures FindNode(AddNestedReplyRecursive(rs, t, nr), t) ==
      match FindNode(rs, t)
      case Some(n) => Some(n.(replies := Present(Kids(n) + [nr])))
      case None => None
    decreases rs
  {
    if rs != [] {
      var a := AddNestedReplyRecursive(rs, t, nr);
      assert a[0] == AddInNode(rs[0], t, nr) && a[1..] == AddNestedReplyRecursive(rs[1..], t, nr);
      AddInNodeAppendsToParent(rs[0], t, nr);
      AddNestedReplyAppendsToParent(rs[1..], t, nr);
    }
  }

  lemma {:induction false} AddInNodeAppendsToParent(r: Comment, t: string, nr: Comment)
    ensures FindInNode(AddInNode(r, t, nr), t) ==
      match FindInNode(r, t)
      case Some(n) => Some(n.(replies := Present(Kids(n) + [nr])))
      case None => None
    decreases r
  {
    if r.id != t {
      match r.replies
      case Present(k) => AddNestedReplyAppendsToParent(k, t, nr);
      case Missing =>
    }
  }

  /**
   * Adding a reply lists the old thread with the new reply's listing right
   * after the subtree of every node with the parent id that no such node
   * encloses, one level deeper than that node: the reply goes under each of
   * those nodes as its last child, every other node keeps its place and its
   * depth, and the reply goes nowhere else.
   */
  lemma {:induction false} AddNestedReplyPreorder(rs: seq<Comment>, t: string, nr: Comment, d: nat)
    ensures Preorder(AddNestedReplyRecursive(rs, t, nr)) == Grafted(rs, t, nr)
    ensures Outline(AddNestedReplyRecursive(rs, t, nr), d) == GraftedOutline(rs, t, nr, d)
    decreases rs
  {
    if rs != [] {
      var a := AddNestedReplyRecursive(rs, t, nr);
      assert a[0] == AddInNode(rs[0], t, nr) && a[1..] == AddNestedReplyRecursive(rs[1..], t, nr);
      AddInNodePreorder(rs[0], t, nr, d);
      AddNestedReplyPreorder(rs[1..], t, nr, d);
    }
  }

  lemma {:induction false} AddInNodePreorder(r: Comment, t: string, nr: Comment, d: nat)
    ensures PreorderNode(AddInNode(r, t, nr)) == GraftedNode(r, t, nr)
    ensures OutlineNode(AddInNode(r, t, nr), d) == GraftedOutlineNode(r, t, nr, d)
    decreases r
  {
    if r.id == t {
      PreorderAppend(Kids(r), [nr]);
      assert Preorder([nr]) == PreorderNode(nr);
      assert PreorderNode(r) == [Strip(r)] + Preorder(Kids(r));
      OutlineAppend(Kids(r), [nr], d + 1);
      assert Outline([nr], d + 1) == OutlineNode(nr, d + 1);
      OutlineNodeKids(r, d);
    } else {
      match r.replies
      case Present(k) => AddNestedReplyPreorder(k, t, nr, d + 1);
      case Missing =>
    }
  }

  /**
   * The grafted depth listing pins the add down: a thread with that depth
   * listing is the add's result once missing reply lists are read as empty.
   */
  lemma AddNestedReplyDetermined(rs: seq<Comment>, t: string, nr: Comment, other: seq<Comment>)
    requires Outline(other, 0) == GraftedOutline(rs, t, nr, 0)
    ensures Normalized(other) == Normalized(AddNestedReplyRecursive(rs, t, nr))
  {
    AddNestedReplyPreorder(rs, t, nr, 0);
    OutlineDetermines(other, AddNestedReplyRecursive(rs, t, nr), 0);
  }

  /** A forest without id `x` has no node `x` at its head, below its head or after it. */
  lemma NoIdParts(cs: seq<Comment>, x: string)
    requires cs != [] && !ContainsId(cs, x)
    ensures cs[0].id != x && !ContainsId(Kids(cs[0]), x) && !ContainsId(cs[1..], x)
  {
    assert Preorder(cs) == PreorderNode(cs[0]) + Preorder(cs[1..]);
    assert PreorderNode(cs[0]) == [Strip(cs[0])] + Preorder(Kids(cs[0]));
    assert Strip(cs[0]) in Preorder(cs);
    forall n | n in Preorder(cs[1..]) ensures n.id != x {
      assert n in Preorder(cs);
    }
    forall n | n in Preorder(Kids(cs[0])) ensures n.id != x {
      assert n in PreorderNode(cs[0]);
      assert n in Preorder(cs);
    }
  }

  lemma {:induction false} PrunedAppend(a: seq<Comment>, b: seq<Comment>, x: string)
    ensures Pruned(a + b, x) == Pruned(a, x) + Pruned(b, x)
    decreases a
  {
    if a == [] {
      assert a + b == b;
    } else {
      assert (a + b)[0] == a[0] && (a + b)[1..] == a[1..] + b;
      PrunedAppend(a[1..], b, x);
    }
  }

  /**
   * Adding a reply is undone by deleting it: when its id is new to the
   * thread, deleting that id gives back the old thread (with missing reply
   * lists read as empty), and pruning it lists exactly the old thread, so no
   * other node was added, removed, changed or moved.
   */
  lemma {:induction false} AddNestedReplyUndone(rs: seq<Comment>, t: string, nr: Comment)
    requires !ContainsId(rs, nr.id)
    ensures DeleteReply(AddNestedReplyRecursive(rs, t, nr), nr.id) == Normalized(rs)
    ensures Pruned(AddNestedReplyRecursive(rs, t, nr), nr.id) == Preorder(rs)
    decreases rs
  {
    if rs != [] {
      var a := AddNestedReplyRecursive(rs, t, nr);
      assert a[0] == AddInNode(rs[0], t, nr) && a[1..] == AddNestedReplyRecursive(rs[1..], t, nr);
      NoIdParts(rs, nr.id);
      AddInNodeUndone(rs[0], t, nr);
      AddNestedReplyUndone(rs[1..], t, nr);
    }
  }

  lemma {:induction false} AddInNodeUndone(r: Comment, t: string, nr: Comment)
    requires r.id != nr.id && !ContainsId(Kids(r), nr.id)
    ensures DeleteInNode(AddInNode(r, t, nr), nr.id) == NormalizedNode(r)
    ensures PrunedNode(AddInNode(r, t, nr), nr.id) == PreorderNode(r)
    decreases r
  {
    var x := nr.id;
    assert PreorderNode(r) == [Strip(r)] + Preorder(Kids(r));
    OutlineNodeKids(r, 0);
    if r.id == t {
      PrunedAppend(Kids(r), [nr], x);
      assert Pruned([nr], x) == [];
      PrunedWithoutTarget(Kids(r), x);
      assert Pruned(Kids(r), x) + [] == Preorder(Kids(r));
      DeleteReplyAppend(Kids(r), [nr], x);
      assert DeleteReply([nr], x) == [];
      DeleteReplyWithoutTarget(Kids(r), x);
      assert DeleteReply(Kids(r), x) + [] == Normalized(Kids(r));
    } else {
      match r.replies
      case Present(k) => AddNestedReplyUndone(k, t, nr);
      case Missing =>
    }
  }

  /**
   * In a thread with unique ids, adding a reply adds the nodes of the reply
   * once when a node with the parent id exists, and nothing otherwise.
   */
  lemma AddNestedReplyAddsOnce(rs: seq<Comment>, t: string, nr: Comment)
    requires UniqueIds(rs)
    ensures multiset(Preorder(AddNestedReplyRecursive(rs, t, nr))) ==
      multiset(Preorder(rs)) + if ContainsId(rs, t) then multiset(PreorderNode(nr)) else multiset{}
  {
    AddNestedReplyPreorder(rs, t, nr, 0);
    GraftedCount(rs, t, nr);
    assert ContainsId(rs, t) <==> HasId(Preorder(rs), t);
  }

  /** Some node of the listing has id `x`. */
  predicate HasId(p: seq<Comment>, x: string)
  {
    exists n :: n in p && n.id == x
  }

  lemma HasIdAppend(a: seq<Comment>, b: seq<Comment>, x: string)
    ensures HasId(a + b, x) <==> HasId(a, x) || HasId(b, x)
  {
    if HasId(a + b, x) {
      var n :| n in a + b && n.id == x;
      assert n in a || n in b;
    }
    if HasId(a, x) {
      var n :| n in a && n.id == x;
      assert n in a + b;
    }
    if HasId(b, x) {
      var n :| n in b && n.id == x;
      assert n in a + b;
    }
  }

  /** With distinct ids, an id is listed on at most one side of a split. */
  lemma NotOnBothSides(a: seq<Comment>, b: seq<Comment>, x: string)
    requires forall i, j :: 0 <= i < |a| && 0 <= j < |b| ==> a[i].id != b[j].id
    ensures !(HasId(a, x) && HasId(b, x))
  {
  }

  lemma {:induction false} GraftedCount(cs: seq<Comment>, t: string, nr: Comment)
    requires UniqueIds(cs)
    ensures multiset(Grafted(cs, t, nr)) ==
      multiset(Preorder(cs)) + if HasId(Preorder(cs), t) then multiset(PreorderNode(nr)) else multiset{}
    decreases cs
  {
    if cs != [] {
      var head := PreorderNode(cs[0]);
      var rest := Preorder(cs[1..]);
      assert Preorder(cs) == head + rest;
      DistinctIdsSplit(head, rest);
      NotOnBothSides(head, rest, t);
      HasIdAppend(head, rest, t);
      GraftedNodeCount(cs[0], t, nr);
      GraftedCount(cs[1..], t, nr);
      assert Grafted(cs, t, nr) == GraftedNode(cs[0], t, nr) + Grafted(cs[1..], t, nr);
    }
  }

  lemma {:induction false} GraftedNodeCount(c: Comment, t: string, nr: Comment)
    requires DistinctIds(PreorderNode(c))
    ensures multiset(GraftedNode(c, t, nr)) ==
      multiset(PreorderNode(c)) + if HasId(PreorderNode(c), t) then multiset(PreorderNode(nr)) else multiset{}
    decreases c
  {
    var below := Preorder(Kids(c));
    assert PreorderNode(c) == [Strip(c)] + below;
    if c.id == t {
      assert Strip(c) in PreorderNode(c);
    } else {
      DistinctIdsSplit([Strip(c)], below);
      HasIdAppend([Strip(c)], below, t);
      assert !HasId([Strip(c)], t);
      match c.replies
      case Present(k) => GraftedCount(k, t, nr);
      case Missing =>
    }
  }
}
