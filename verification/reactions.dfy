/**
 * The reaction toggle on a post (`PUT /socialPost/:id/react`). A post's
 * reactions are a list of entries, one per reacting user when the list is
 * well formed; the handler finds the caller's entry and removes, retypes or
 * appends it, then stores the whole list back.
 */
module Reactions {
  import opened Wrappers

  /**
   * One element of `post.reactions`. The user id and the type are compared
   * with `===`, so they are `Text`s: `undefined` (a missing field), `null` or
   * a string.
   */
  datatype Reaction = Reaction(userId: Text, rtype: Text, displayName: Option<string>, photoURL: Option<string>)

  /** The body of the response. */
  datatype ReactResponse = ReactResponse(reactions: seq<Reaction>, userReaction: Text, reactionsCount: nat)

  /** At most one entry per user. */
  predicate OnePerUser(rs: seq<Reaction>)
  {
    forall i, j :: 0 <= i < j < |rs| ==> rs[i].userId != rs[j].userId
  }

  /** `findIndex(r => r.userId === userId)`: the first entry of the user, or -1. */
  function IndexOfUser(rs: seq<Reaction>, userId: Text): (k: int)
    ensures -1 <= k < |rs|
    ensures k >= 0 ==> rs[k].userId == userId
    ensures forall i :: 0 <= i < |rs| && (k < 0 || i < k) ==> rs[i].userId != userId
  {
    if rs == [] then -1
    else if rs[0].userId == userId then 0
    else
      var k := IndexOfUser(rs[1..], userId);
      if k < 0 then -1 else k + 1
  }

  /**
   * The list after the toggle, as the handler holds it in memory and sends it
   * back: the rules of the handler applied to the user's first entry.
   */
  function Toggle(rs: seq<Reaction>, userId: Text, rt: Text, senderName: Option<string>, senderPhoto: Option<string>): seq<Reaction>
  {
    var i := IndexOfUser(rs, userId);
    if i >= 0 then
      if rs[i].rtype == rt || rt == Null then rs[..i] + rs[i + 1..]
      else rs[i := rs[i].(rtype := rt)]
    else if TruthyText(rt) then rs + [Reaction(userId, rt, senderName, senderPhoto)]
    else rs
  }

  /**
   * The list the update writes to the database. It is the list of `Toggle`,
   * except that the driver serializes `undefined` as `null`: a retyped entry
   * gets `null` for an `undefined` type, and a new entry gets `null` for an
   * `undefined` user id. Entries the handler did not touch keep their fields
   * as they were read, a missing field included.
   */
  function Written(rs: seq<Reaction>, userId: Text, rt: Text, senderName: Option<string>, senderPhoto: Option<string>): (w: seq<Reaction>)
    ensures |w| == |Toggle(rs, userId, rt, senderName, senderPhoto)|
  {
    var i := IndexOfUser(rs, userId);
    var r := Toggle(rs, userId, rt, senderName, senderPhoto);
    if i >= 0 && !(rs[i].rtype == rt || rt == Null) then r[i := r[i].(rtype := Stored(rt))]
    else if i < 0 && TruthyText(rt) then r[|rs| := r[|rs|].(userId := Stored(userId))]
    else r
  }

  /** `find(r => r.userId === userId)?.type || null`. */
  function UserReaction(rs: seq<Reaction>, userId: Text): (t: Text)
    ensures t == Null || TruthyText(t)
    ensures TruthyText(t) ==> exists i :: 0 <= i < |rs| && rs[i].userId == userId && rs[i].rtype == t
    ensures forall i :: 0 <= i < |rs| && rs[i].userId == userId && TruthyText(rs[i].rtype) && OnePerUser(rs) ==> t == rs[i].rtype
  {
    var i := IndexOfUser(rs, userId);
    if i >= 0 && TruthyText(rs[i].rtype) then rs[i].rtype else Null
  }

  /** The entries of users other than `userId`, in order. */
  function Others(rs: seq<Reaction>, userId: Text): (r: seq<Reaction>)
    ensures forall e :: e in r <==> e in rs && e.userId != userId
  {
    if rs == [] then []
    else (if rs[0].userId != userId then [rs[0]] else []) + Others(rs[1..], userId)
  }

  /** The entries of `userId`, in order. */
  function Mine(rs: seq<Reaction>, userId: Text): (r: seq<Reaction>)
    ensures forall e :: e in r <==> e in rs && e.userId == userId
  {
    if rs == [] then []
    else (if rs[0].userId == userId then [rs[0]] else []) + Mine(rs[1..], userId)
  }

  /**
   * The handler's branches on `findIndex`: splice the user's entry out,
   * overwrite its type where it stands, or push a new entry.
   */
  method ApplyToggle(rs: seq<Reaction>, userId: Text, rt: Text, senderName: Option<string>, senderPhoto: Option<string>)
    returns (r: seq<Reaction>)
    ensures r == Toggle(rs, userId, rt, senderName, senderPhoto)
  {
    var i := FindIndex(rs, userId);
    if i >= 0 {
      if rs[i].rtype == rt || rt == Null {
        r := rs[..i] + rs[i + 1..];
      } else {
        r := rs[i := rs[i].(rtype := rt)];
      }
    } else if TruthyText(rt) {
      r := rs + [Reaction(userId, rt, senderName, senderPhoto)];
    } else {
      r := rs;
    }
  }

  /**
   * The index search of the handler, as a loop: the first position whose
   * entry belongs to `userId`, or -1 when there is none.
   */
  method FindIndex(rs: seq<Reaction>, userId: Text) returns (k: int)
    ensures -1 <= k < |rs|
    ensures k >= 0 ==> rs[k].userId == userId && forall i :: 0 <= i < k ==> rs[i].userId != userId
    ensures k < 0 ==> forall i :: 0 <= i < |rs| ==> rs[i].userId != userId
    ensures k == IndexOfUser(rs, userId)
  {
    k := 0;
    while k < |rs|
      invariant 0 <= k <= |rs|
      invariant forall i :: 0 <= i < k ==> rs[i].userId != userId
    {
      if rs[k].userId == userId {
        return;
      }
      k := k + 1;
    }
    k := -1;
  }

  // ---------------------------------------------------------------------------
  // Properties of the toggle
  // ---------------------------------------------------------------------------

  lemma {:induction false} OthersRemoveAt(rs: seq<Reaction>, i: nat, userId: Text)
    requires i < |rs| && rs[i].userId == userId
    ensures Others(rs[..i] + rs[i + 1..], userId) == Others(rs, userId)
    decreases i
  {
    if i > 0 {
      OthersRemoveAt(rs[1..], i - 1, userId);
      assert (rs[..i] + rs[i + 1..])[1..] == rs[1..][..i - 1] + rs[1..][i..];
    } else {
      assert rs[..0] + rs[1..] == rs[1..];
    }
  }

  lemma {:induction false} OthersReplaceAt(rs: seq<Reaction>, i: nat, e: Reaction, userId: Text)
    requires i < |rs| && rs[i].userId == userId && e.userId == userId
    ensures Others(rs[i := e], userId) == Others(rs, userId)
    decreases i
  {
    if i > 0 {
      OthersReplaceAt(rs[1..], i - 1, e, userId);
      assert rs[i := e][1..] == rs[1..][i - 1 := e];
    } else {
      assert rs[0 := e][1..] == rs[1..];
    }
  }

  lemma {:induction false} OthersAppend(rs: seq<Reaction>, e: Reaction, userId: Text)
    requires e.userId == userId
    ensures Others(rs + [e], userId) == Others(rs, userId)
    decreases rs
  {
    if rs == [] {
      assert [e][1..] == [];
    } else {
      assert (rs + [e])[1..] == rs[1..] + [e];
      OthersAppend(rs[1..], e, userId);
    }
  }

  /** The toggle never touches another user's entry, and keeps those entries in order. */
  lemma ToggleKeepsOthers(rs: seq<Reaction>, userId: Text, rt: Text, senderName: Option<string>, senderPhoto: Option<string>)
    ensures Others(Toggle(rs, userId, rt, senderName, senderPhoto), userId) == Others(rs, userId)
  {
    var i := IndexOfUser(rs, userId);
    if i >= 0 && (rs[i].rtype == rt || rt == Null) {
      OthersRemoveAt(rs, i, userId);
    } else if i >= 0 {
      OthersReplaceAt(rs, i, rs[i].(rtype := rt), userId);
    } else if TruthyText(rt) {
      OthersAppend(rs, Reaction(userId, rt, senderName, senderPhoto), userId);
    }
  }

  lemma {:induction false} MineUnique(rs: seq<Reaction>, userId: Text)
    requires OnePerUser(rs)
    ensures IndexOfUser(rs, userId) < 0 ==> Mine(rs, userId) == []
    ensures IndexOfUser(rs, userId) >= 0 ==> Mine(rs, userId) == [rs[IndexOfUser(rs, userId)]]
    decreases rs
  {
    if rs != [] {
      MineUnique(rs[1..], userId);
      if rs[0].userId == userId {
        assert forall j :: 0 <= j < |rs[1..]| ==> rs[1..][j].userId != userId by {
          forall j | 0 <= j < |rs[1..]| ensures rs[1..][j].userId != userId {
            assert rs[1..][j] == rs[j + 1];
          }
        }
        assert Mine(rs[1..], userId) == [];
      }
    }
  }

  lemma OnePerUserSplice(rs: seq<Reaction>, i: nat)
    requires OnePerUser(rs) && i < |rs|
    ensures OnePerUser(rs[..i] + rs[i + 1..])
  {
    var r := rs[..i] + rs[i + 1..];
    forall a, b | 0 <= a < b < |r| ensures r[a].userId != r[b].userId {
      var a' := if a < i then a else a + 1;
      var b' := if b < i then b else b + 1;
      assert r[a] == rs[a'] && r[b] == rs[b'];
    }
  }

  /**
   * The toggle keeps "one entry per user", and when that holds it does what
   * the handler promises to the caller's entry:
   * - an entry of the same type, or a `null` type, removes it;
   * - any other type replaces the type where the entry stands, so the entry
   *   keeps its position and the list its length;
   * - with no entry, a truthy type appends a new one and anything else
   *   leaves the list unchanged.
   */
  lemma ToggleRules(rs: seq<Reaction>, userId: Text, rt: Text, senderName: Option<string>, senderPhoto: Option<string>)
    requires OnePerUser(rs)
    ensures var r := Toggle(rs, userId, rt, senderName, senderPhoto);
      && OnePerUser(r)
      && (forall e :: Mine(rs, userId) == [e] && (e.rtype == rt || rt == Null) ==> Mine(r, userId) == [])
      && (forall e :: Mine(rs, userId) == [e] && e.rtype != rt && rt != Null ==>
            Mine(r, userId) == [e.(rtype := rt)] && |r| == |rs| && IndexOfUser(r, userId) == IndexOfUser(rs, userId))
      && (Mine(rs, userId) == [] && TruthyText(rt) ==>
            r == rs + [Reaction(userId, rt, senderName, senderPhoto)] && Mine(r, userId) == [Reaction(userId, rt, senderName, senderPhoto)])
      && (Mine(rs, userId) == [] && !TruthyText(rt) ==> r == rs)
      && |Mine(r, userId)| <= 1
  {
    var r := Toggle(rs, userId, rt, senderName, senderPhoto);
    var i := IndexOfUser(rs, userId);
    ToggleKeepsOnePerUser(rs, userId, rt, senderName, senderPhoto);
    MineUnique(rs, userId);
    MineUnique(r, userId);
    if i >= 0 && (rs[i].rtype == rt || rt == Null) {
      ToggleRemovesEntry(rs, userId, rt, senderName, senderPhoto);
    } else if i >= 0 {
      ToggleRetypesEntry(rs, userId, rt, senderName, senderPhoto);
    } else if TruthyText(rt) {
      ToggleAddsEntry(rs, userId, rt, senderName, senderPhoto);
    }
  }

  /** Same type or `null` on an existing entry: the user is left without one. */
  lemma ToggleRemovesEntry(rs: seq<Reaction>, userId: Text, rt: Text, senderName: Option<string>, senderPhoto: Option<string>)
    requires OnePerUser(rs)
    requires IndexOfUser(rs, userId) >= 0 && (rs[IndexOfUser(rs, userId)].rtype == rt || rt == Null)
    ensures Mine(Toggle(rs, userId, rt, senderName, senderPhoto), userId) == []
  {
    var i := IndexOfUser(rs, userId);
    var r := Toggle(rs, userId, rt, senderName, senderPhoto);
    assert r == rs[..i] + rs[i + 1..];
    forall j | 0 <= j < |r| ensures r[j].userId != userId {
      var j' := if j < i then j else j + 1;
      assert r[j] == rs[j'];
    }
    NoEntryNoMine(r, userId);
  }

  /**
   * Another non-null type on an existing entry: the entry stays at its
   * position with the new type, and the list keeps its length.
   */
  lemma ToggleRetypesEntry(rs: seq<Reaction>, userId: Text, rt: Text, senderName: Option<string>, senderPhoto: Option<string>)
    requires OnePerUser(rs)
    requires IndexOfUser(rs, userId) >= 0 && rs[IndexOfUser(rs, userId)].rtype != rt && rt != Null
    ensures var i := IndexOfUser(rs, userId);
      var r := Toggle(rs, userId, rt, senderName, senderPhoto);
      && r == rs[i := rs[i].(rtype := rt)]
      && IndexOfUser(r, userId) == i
      && Mine(r, userId) == [rs[i].(rtype := rt)]
  {
    var i := IndexOfUser(rs, userId);
    var r := Toggle(rs, userId, rt, senderName, senderPhoto);
    assert r == rs[i := rs[i].(rtype := rt)];
    ToggleKeepsOnePerUser(rs, userId, rt, senderName, senderPhoto);
    assert r[i].userId == userId;
    assert forall j :: 0 <= j < i ==> r[j] == rs[j];
    MineUnique(r, userId);
  }

  /** A truthy type and no entry: the new entry is appended at the end and is the user's only one. */
  lemma ToggleAddsEntry(rs: seq<Reaction>, userId: Text, rt: Text, senderName: Option<string>, senderPhoto: Option<string>)
    requires OnePerUser(rs)
    requires IndexOfUser(rs, userId) < 0 && TruthyText(rt)
    ensures var r := Toggle(rs, userId, rt, senderName, senderPhoto);
      && r == rs + [Reaction(userId, rt, senderName, senderPhoto)]
      && Mine(r, userId) == [Reaction(userId, rt, senderName, senderPhoto)]
  {
    var r := Toggle(rs, userId, rt, senderName, senderPhoto);
    ToggleKeepsOnePerUser(rs, userId, rt, senderName, senderPhoto);
    assert r[|rs|].userId == userId;
    assert forall j :: 0 <= j < |rs| ==> r[j] == rs[j];
    MineUnique(r, userId);
  }

  /** A list without an entry of the user has no entries of the user. */
  lemma NoEntryNoMine(rs: seq<Reaction>, userId: Text)
    requires forall j :: 0 <= j < |rs| ==> rs[j].userId != userId
    ensures Mine(rs, userId) == []
  {
  }

  /** The toggle keeps "one entry per user". */
  lemma ToggleKeepsOnePerUser(rs: seq<Reaction>, userId: Text, rt: Text, senderName: Option<string>, senderPhoto: Option<string>)
    requires OnePerUser(rs)
    ensures OnePerUser(Toggle(rs, userId, rt, senderName, senderPhoto))
  {
    var r := Toggle(rs, userId, rt, senderName, senderPhoto);
    var i := IndexOfUser(rs, userId);
    if i >= 0 && (rs[i].rtype == rt || rt == Null) {
      OnePerUserSplice(rs, i);
    } else if i >= 0 {
      forall a, b | 0 <= a < b < |r| ensures r[a].userId != r[b].userId {
        assert r[a].userId == rs[a].userId && r[b].userId == rs[b].userId;
      }
    } else if TruthyText(rt) {
      forall a, b | 0 <= a < b < |r| ensures r[a].userId != r[b].userId {
        assert r[a] == rs[a];
      }
    }
  }

  /**
   * The `userReaction` of the response, for a well-formed list: the caller's
   * new type when it is truthy and differs from the entry's old type, `null`
   * otherwise (after an unreact, a falsy type, or no reaction).
   */
  lemma ToggleUserReaction(rs: seq<Reaction>, userId: Text, rt: Text, senderName: Option<string>, senderPhoto: Option<string>)
    requires OnePerUser(rs)
    ensures UserReaction(Toggle(rs, userId, rt, senderName, senderPhoto), userId) ==
      if TruthyText(rt) && forall e :: e in Mine(rs, userId) ==> e.rtype != rt then rt else Null
  {
    var r := Toggle(rs, userId, rt, senderName, senderPhoto);
    ToggleRules(rs, userId, rt, senderName, senderPhoto);
    MineUnique(rs, userId);
    MineUnique(r, userId);
    var k := IndexOfUser(r, userId);
    if k >= 0 {
      assert r[k] in Mine(r, userId);
    }
  }

  // ---------------------------------------------------------------------------
  // The list the database holds
  // ---------------------------------------------------------------------------

  /**
   * Without an `undefined` user id or type in the request, the database holds
   * exactly the list the handler sends back.
   */
  lemma WrittenAgrees(rs: seq<Reaction>, userId: Text, rt: Text, senderName: Option<string>, senderPhoto: Option<string>)
    requires userId != Undefined && rt != Undefined
    ensures Written(rs, userId, rt, senderName, senderPhoto) == Toggle(rs, userId, rt, senderName, senderPhoto)
  {
    var i := IndexOfUser(rs, userId);
    var r := Toggle(rs, userId, rt, senderName, senderPhoto);
    if i >= 0 && !(rs[i].rtype == rt || rt == Null) {
      assert r[i].(rtype := Stored(rt)) == r[i];
    } else if i < 0 && TruthyText(rt) {
      assert r[|rs|].(userId := Stored(userId)) == r[|rs|];
    }
  }

  /** The database never holds a change to another user's entry, for a request with a user id. */
  lemma WrittenKeepsOthers(rs: seq<Reaction>, userId: Text, rt: Text, senderName: Option<string>, senderPhoto: Option<string>)
    requires userId != Undefined
    ensures Others(Written(rs, userId, rt, senderName, senderPhoto), userId) == Others(rs, userId)
  {
    var i := IndexOfUser(rs, userId);
    if i >= 0 && !(rs[i].rtype == rt || rt == Null) {
      var w := Written(rs, userId, rt, senderName, senderPhoto);
      assert w == rs[i := rs[i].(rtype := Stored(rt))];
      OthersReplaceAt(rs, i, rs[i].(rtype := Stored(rt)), userId);
    } else {
      if i < 0 && TruthyText(rt) {
        var r := Toggle(rs, userId, rt, senderName, senderPhoto);
        assert r[|rs|].(userId := Stored(userId)) == r[|rs|];
      }
      assert Written(rs, userId, rt, senderName, senderPhoto) == Toggle(rs, userId, rt, senderName, senderPhoto);
      ToggleKeepsOthers(rs, userId, rt, senderName, senderPhoto);
    }
  }

  /**
   * A request without a type retypes the user's entry (its stored type is not
   * `undefined`) rather than removing it, and the database then holds `null`
   * as the type; a second such request finds `null`, which is not
   * `undefined`, and writes the same list again. The entry is never removed.
   */
  lemma TypelessRequestKeepsEntry(rs: seq<Reaction>, userId: Text, senderName: Option<string>, senderPhoto: Option<string>)
    requires IndexOfUser(rs, userId) >= 0 && rs[IndexOfUser(rs, userId)].rtype != Undefined
    ensures var i := IndexOfUser(rs, userId);
      var w := Written(rs, userId, Undefined, senderName, senderPhoto);
      && w == rs[i := rs[i].(rtype := Null)]
      && IndexOfUser(w, userId) == i
      && Written(w, userId, Undefined, senderName, senderPhoto) == w
  {
    var i := IndexOfUser(rs, userId);
    var w := Written(rs, userId, Undefined, senderName, senderPhoto);
    assert w == rs[i := rs[i].(rtype := Null)];
    IndexOfUserAt(w, userId, i);
    var w2 := Written(w, userId, Undefined, senderName, senderPhoto);
    assert w2 == w[i := w[i].(rtype := Null)];
  }

  lemma {:induction false} IndexOfUserAt(rs: seq<Reaction>, userId: Text, i: nat)
    requires i < |rs| && rs[i].userId == userId
    requires forall j :: 0 <= j < i ==> rs[j].userId != userId
    ensures IndexOfUser(rs, userId) == i
    decreases i
  {
    if i > 0 {
      IndexOfUserAt(rs[1..], userId, i - 1);
    }
  }

  // ---------------------------------------------------------------------------
  // The posts collection and the route
  // ---------------------------------------------------------------------------

  /** The posts collection, reduced to each post's `reactions` field (None when the field is absent). */
  class PostStore {
    var reactions: map<string, Option<seq<Reaction>>>

    constructor (initial: map<string, Option<seq<Reaction>>>)
      ensures reactions == initial
    {
      reactions := initial;
    }

    /**
     * `PUT /socialPost/:id/react`. `validId` is the answer of the id-format
     * check. The post's list (empty when absent) is toggled in place and
     * written back, with `undefined` written as `null`; the response carries
     * the list as the handler holds it, the caller's reaction and the count.
     */
    method React(postId: string, validId: bool, userId: Text, rt: Text, senderName: Option<string>, senderPhoto: Option<string>)
      returns (r: Result<ReactResponse>)
      modifies this
      ensures !validId ==> r == Err(BadRequest("Invalid post ID")) && reactions == old(reactions)
      ensures validId && postId !in old(reactions) ==> r == Err(NotFound("Post not found")) && reactions == old(reactions)
      ensures validId && postId in old(reactions) ==>
        var before := match old(reactions)[postId] case Some(l) => l case None => [];
        var after := Toggle(before, userId, rt, senderName, senderPhoto);
        && reactions == old(reactions)[postId := Some(Written(before, userId, rt, senderName, senderPhoto))]
        && r == Ok(ReactResponse(after, UserReaction(after, userId), |after|))
    {
      if !validId {
        return Err(BadRequest("Invalid post ID"));
      }
      if postId !in reactions {
        return Err(NotFound("Post not found"));
      }
      var before := match reactions[postId] case Some(l) => l case None => [];
      var list := ApplyToggle(before, userId, rt, senderName, senderPhoto);
      reactions := reactions[postId := Some(Written(before, userId, rt, senderName, senderPhoto))];
      var j := FindIndex(list, userId);
      var userReaction := if j >= 0 && TruthyText(list[j].rtype) then list[j].rtype else Null;
      return Ok(ReactResponse(list, userReaction, |list|));
    }
  }
}
