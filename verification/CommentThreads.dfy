/** From a flat list of comments to threads. */
module CommentThreads {
  import opened OrderedMaps

  datatype Comment = Comment(id: string, parentId: Option<string>, elementId: Option<string>, body: string)

  datatype Anchor = NoAnchor | ElementAnchor(elementId: string) | MissingAnchor(elementId: string)

  datatype Thread = Thread(root: Comment, replies: seq<Comment>, anchor: Anchor)

  function ById(comments: seq<Comment>): map<string, Comment> {
    if comments == [] then map[]
    else
      var last := comments[|comments| - 1];
      ById(comments[..|comments| - 1])[last.id := last]
  }

  ghost predicate UniqueIds(comments: seq<Comment>) {
    forall i, j :: 0 <= i < j < |comments| ==> comments[i].id != comments[j].id
  }

  ghost predicate Keyed(byId: map<string, Comment>) {
    forall k :: k in byId ==> byId[k].id == k
  }

  // ---------------------------------------------------------------------------------------------
  // Parent chains
  // ---------------------------------------------------------------------------------------------

  /** A comment without a parent, or whose parent is not in the list. */
  predicate IsTop(byId: map<string, Comment>, c: Comment) {
    c.parentId.None? || c.parentId.value !in byId
  }

  ghost predicate Ranks(byId: map<string, Comment>, rank: map<string, nat>) {
    forall k :: k in byId ==>
      k in rank && (!IsTop(byId, byId[k]) ==>
        byId[k].parentId.value in rank && rank[byId[k].parentId.value] < rank[k])
  }

  /** No chain of parents runs in a circle. */
  ghost predicate Acyclic(byId: map<string, Comment>) {
    exists rank :: Ranks(byId, rank)
  }

  ghost function Climb(byId: map<string, Comment>, rank: map<string, nat>, id: string): (top: string)
    requires Ranks(byId, rank) && id in byId
    ensures top in byId
    decreases rank[id]
  {
    if IsTop(byId, byId[id]) then id else Climb(byId, rank, byId[id].parentId.value)
  }

  /** The id at the end of a comment's parent chain. */
  ghost function Root(byId: map<string, Comment>, id: string): (root: string)
    requires Acyclic(byId) && id in byId
    ensures root in byId
  {
    var rank :| Ranks(byId, rank);
    Climb(byId, rank, id)
  }

  lemma RootStep(byId: map<string, Comment>, id: string)
    requires Acyclic(byId) && id in byId
    ensures Root(byId, id) == if IsTop(byId, byId[id]) then id else Root(byId, byId[id].parentId.value)
  {
  }

  lemma {:induction false} ClimbEndsAtTop(byId: map<string, Comment>, rank: map<string, nat>, id: string)
    requires Ranks(byId, rank) && id in byId
    ensures IsTop(byId, byId[Climb(byId, rank, id)])
    decreases rank[id]
  {
    if !IsTop(byId, byId[id]) {
      ClimbEndsAtTop(byId, rank, byId[id].parentId.value);
    }
  }

  /** A comment is its own root exactly when it has no known parent, and every root is such a one. */
  lemma RootIsTop(byId: map<string, Comment>, id: string)
    requires Acyclic(byId) && id in byId
    ensures IsTop(byId, byId[Root(byId, id)])
    ensures Root(byId, id) == id <==> IsTop(byId, byId[id])
  {
    var rank :| Ranks(byId, rank) && Root(byId, id) == Climb(byId, rank, id);
    ClimbEndsAtTop(byId, rank, id);
  }

  /** Where a comment's chain ends, for any comment: the list may hold another one under its id. */
  ghost function RootOf(byId: map<string, Comment>, c: Comment): string
    requires Acyclic(byId)
  {
    if IsTop(byId, c) then c.id else Root(byId, c.parentId.value)
  }

  /** Walks up to the root of a comment; it stops because the chain does not run in a circle. */
  method ResolveRootId(comment: Comment, byId: map<string, Comment>) returns (rootId: string)
    requires Keyed(byId) && Acyclic(byId)
    ensures rootId == RootOf(byId, comment)
  {
    ghost var rank :| Ranks(byId, rank);
    var current := comment;
    ghost var steps := 0;
    while current.parentId.Some?
      invariant RootOf(byId, current) == RootOf(byId, comment)
      invariant current == comment || (current.id in byId && byId[current.id] == current)
      invariant steps > 0 ==> current.id in byId && byId[current.id] == current
      decreases steps == 0, if steps == 0 then 0 else rank[current.id]
    {
      if current.parentId.value !in byId { return current.id; }
      RootStep(byId, current.parentId.value);
      current := byId[current.parentId.value];
      steps := steps + 1;
    }
    return current.id;
  }

  // ---------------------------------------------------------------------------------------------
  // Building the threads
  // ---------------------------------------------------------------------------------------------

  function ClassifyAnchor(root: Comment, live: set<string>): Anchor {
    match root.elementId
    case None => NoAnchor
    case Some(e) => if e in live then ElementAnchor(e) else MissingAnchor(e)
  }

  /** Where every chain ends, position by position. */
  ghost function Ends(byId: map<string, Comment>, comments: seq<Comment>): seq<string>
    requires Acyclic(byId)
  {
    seq(|comments|, i requires 0 <= i < |comments| => RootOf(byId, comments[i]))
  }

  /** The comment at a position starts a thread. */
  ghost predicate Starts(comments: seq<Comment>, ends: seq<string>, i: nat)
    requires |ends| == |comments| && i < |comments|
  {
    ends[i] == comments[i].id
  }

  /** The positions, of the first `n`, that start a thread. */
  ghost function RootsBefore(comments: seq<Comment>, ends: seq<string>, n: nat): (roots: seq<nat>)
    requires |ends| == |comments| && n <= |comments|
    ensures forall t :: 0 <= t < |roots| ==> roots[t] < n
  {
    if n == 0 then []
    else
      var before := RootsBefore(comments, ends, n - 1);
      if Starts(comments, ends, n - 1) then before + [n - 1] else before
  }

  /** The last position, of the first `n`, that starts a thread under an id. */
  ghost function LatestRoot(comments: seq<Comment>, ends: seq<string>, n: nat, id: string): (p: Option<nat>)
    requires |ends| == |comments| && n <= |comments|
    ensures p.Some? ==> p.value < n
  {
    if n == 0 then None
    else if comments[n - 1].id == id && Starts(comments, ends, n - 1) then Some(n - 1)
    else LatestRoot(comments, ends, n - 1, id)
  }

  /** The comment at `j` is a reply in the thread that starts at `p`: the latest one under its root's id. */
  ghost predicate RepliesIn(comments: seq<Comment>, ends: seq<string>, p: nat, j: nat)
    requires |ends| == |comments| && j < |comments|
  {
    !Starts(comments, ends, j) && LatestRoot(comments, ends, j, ends[j]) == Some(p)
  }

  /** The replies, of the first `n` comments, in the thread that starts at `p`, in list order. */
  ghost function RepliesTo(comments: seq<Comment>, ends: seq<string>, n: nat, p: nat): seq<Comment>
    requires |ends| == |comments| && n <= |comments|
  {
    if n == 0 then []
    else
      RepliesTo(comments, ends, n - 1, p) + if RepliesIn(comments, ends, p, n - 1) then [comments[n - 1]] else []
  }

  ghost function ThreadAt(comments: seq<Comment>, ends: seq<string>, n: nat, p: nat, live: set<string>): Thread
    requires |ends| == |comments| && p < n <= |comments|
  {
    Thread(comments[p], RepliesTo(comments, ends, n, p), ClassifyAnchor(comments[p], live))
  }

  /** The threads of the first `n` comments: one for each that starts one, in list order. */
  ghost function ThreadsOf(comments: seq<Comment>, ends: seq<string>, n: nat, live: set<string>): seq<Thread>
    requires |ends| == |comments| && n <= |comments|
  {
    var roots := RootsBefore(comments, ends, n);
    seq(|roots|, t requires 0 <= t < |roots| => ThreadAt(comments, ends, n, roots[t], live))
  }

  lemma {:induction false} KeyedById(comments: seq<Comment>)
    ensures Keyed(ById(comments))
  {
    if comments != [] {
      KeyedById(comments[..|comments| - 1]);
    }
  }

  lemma {:induction false} NoRepliesBefore(comments: seq<Comment>, ends: seq<string>, n: nat, p: nat)
    requires |ends| == |comments| && n <= |comments| && n <= p + 1
    ensures RepliesTo(comments, ends, n, p) == []
  {
    if n > 0 {
      NoRepliesBefore(comments, ends, n - 1, p);
    }
  }

  function WithReply(thread: Thread, c: Comment): Thread {
    thread.(replies := thread.replies + [c])
  }

  /** The directory leads from an id to the latest thread under it. */
  ghost predicate Directory(comments: seq<Comment>, ends: seq<string>, n: nat, byRootId: map<string, nat>)
    requires |ends| == |comments| && n <= |comments|
  {
    var roots := RootsBefore(comments, ends, n);
    && (forall id :: id in byRootId <==> LatestRoot(comments, ends, n, id).Some?)
    && forall id :: id in byRootId ==>
         byRootId[id] < |roots| && LatestRoot(comments, ends, n, id) == Some(roots[byRootId[id]])
  }

  lemma {:induction false} ThreadsStay(comments: seq<Comment>, ends: seq<string>, n: nat, t: nat, live: set<string>)
    requires |ends| == |comments| && n < |comments| && t < |RootsBefore(comments, ends, n)|
    ensures var p := RootsBefore(comments, ends, n)[t];
            ThreadAt(comments, ends, n + 1, p, live) ==
            if RepliesIn(comments, ends, p, n) then WithReply(ThreadAt(comments, ends, n, p, live), comments[n])
            else ThreadAt(comments, ends, n, p, live)
  {
    var p := RootsBefore(comments, ends, n)[t];
    assert RepliesTo(comments, ends, n, p) + [] == RepliesTo(comments, ends, n, p);
  }

  lemma RootLands(comments: seq<Comment>, ends: seq<string>, n: nat, live: set<string>)
    requires |ends| == |comments| && n < |comments| && Starts(comments, ends, n)
    ensures ThreadsOf(comments, ends, n + 1, live) ==
            ThreadsOf(comments, ends, n, live) + [Thread(comments[n], [], ClassifyAnchor(comments[n], live))]
  {
    var roots := RootsBefore(comments, ends, n);
    NoRepliesBefore(comments, ends, n + 1, n);
    assert RootsBefore(comments, ends, n + 1) == roots + [n];
    forall t | 0 <= t < |roots|
      ensures ThreadAt(comments, ends, n + 1, roots[t], live) == ThreadAt(comments, ends, n, roots[t], live)
    {
      ThreadsStay(comments, ends, n, t, live);
    }
  }

  lemma ReplyLands(comments: seq<Comment>, ends: seq<string>, n: nat, live: set<string>)
    requires |ends| == |comments| && n < |comments| && !Starts(comments, ends, n)
    ensures var roots := RootsBefore(comments, ends, n);
            var before, after := ThreadsOf(comments, ends, n, live), ThreadsOf(comments, ends, n + 1, live);
            && |after| == |before| == |roots|
            && forall t :: 0 <= t < |roots| ==>
                 after[t] == if LatestRoot(comments, ends, n, ends[n]) == Some(roots[t])
                             then WithReply(before[t], comments[n]) else before[t]
  {
    var roots := RootsBefore(comments, ends, n);
    assert RootsBefore(comments, ends, n + 1) == roots;
    forall t | 0 <= t < |roots|
      ensures ThreadAt(comments, ends, n + 1, roots[t], live) ==
              if LatestRoot(comments, ends, n, ends[n]) == Some(roots[t])
              then WithReply(ThreadAt(comments, ends, n, roots[t], live), comments[n])
              else ThreadAt(comments, ends, n, roots[t], live)
    {
      ThreadsStay(comments, ends, n, t, live);
    }
  }

  lemma {:induction false} RootsClimb(comments: seq<Comment>, ends: seq<string>, n: nat, t: nat, u: nat)
    requires |ends| == |comments| && n <= |comments| && t < u < |RootsBefore(comments, ends, n)|
    ensures RootsBefore(comments, ends, n)[t] < RootsBefore(comments, ends, n)[u]
  {
    if u < |RootsBefore(comments, ends, n - 1)| {
      RootsClimb(comments, ends, n - 1, t, u);
    }
  }

  lemma DirectoryKeeps(comments: seq<Comment>, ends: seq<string>, n: nat, byRootId: map<string, nat>)
    requires |ends| == |comments| && n < |comments| && Directory(comments, ends, n, byRootId)
    requires !Starts(comments, ends, n)
    ensures Directory(comments, ends, n + 1, byRootId)
  {
    assert RootsBefore(comments, ends, n + 1) == RootsBefore(comments, ends, n);
    assert forall id :: LatestRoot(comments, ends, n + 1, id) == LatestRoot(comments, ends, n, id);
  }

  lemma {:induction false} DirectoryGains(comments: seq<Comment>, ends: seq<string>, n: nat, byRootId: map<string, nat>)
    requires |ends| == |comments| && n < |comments| && Directory(comments, ends, n, byRootId)
    requires Starts(comments, ends, n)
    ensures Directory(comments, ends, n + 1, byRootId[comments[n].id := |RootsBefore(comments, ends, n)|])
  {
    assert RootsBefore(comments, ends, n + 1) == RootsBefore(comments, ends, n) + [n];
    forall id
      ensures LatestRoot(comments, ends, n + 1, id) ==
              if comments[n].id == id then Some(n) else LatestRoot(comments, ends, n, id)
    {
    }
  }

  /** Where the next comment goes: to a new thread, under its root, or nowhere. */
  lemma CommentLands(comments: seq<Comment>, ends: seq<string>, n: nat, live: set<string>, byRootId: map<string, nat>)
    requires |ends| == |comments| && n < |comments| && Directory(comments, ends, n, byRootId)
    ensures var c, threads, next := comments[n], ThreadsOf(comments, ends, n, live),
            ThreadsOf(comments, ends, n + 1, live);
            if ends[n] == c.id then
              && next == threads + [Thread(c, [], ClassifyAnchor(c, live))]
              && Directory(comments, ends, n + 1, byRootId[c.id := |threads|])
            else
              && next == (if ends[n] in byRootId
                          then threads[byRootId[ends[n]] := WithReply(threads[byRootId[ends[n]]], c)] else threads)
              && Directory(comments, ends, n + 1, byRootId)
  {
    if Starts(comments, ends, n) {
      DirectoryGains(comments, ends, n, byRootId);
      RootLands(comments, ends, n, live);
    } else {
      DirectoryKeeps(comments, ends, n, byRootId);
      ReplyLands(comments, ends, n, live);
      var roots := RootsBefore(comments, ends, n);
      if ends[n] in byRootId {
        forall t | 0 <= t < |roots| && t != byRootId[ends[n]]
          ensures roots[t] != roots[byRootId[ends[n]]]
        {
          RootsClimb(comments, ends, n, if t < byRootId[ends[n]] then t else byRootId[ends[n]],
                     if t < byRootId[ends[n]] then byRootId[ends[n]] else t);
        }
      }
    }
  }

  /** What the builder returns for a list: the threads of all its comments. */
  ghost function Built(comments: seq<Comment>, live: set<string>): seq<Thread>
    requires Acyclic(ById(comments))
  {
    ThreadsOf(comments, Ends(ById(comments), comments), |comments|, live)
  }

  /** The anchor of a thread: none without an element, else the element, marked missing if it is not live. */
  lemma {:induction false} AnchorsTellWhatIsMissing(comments: seq<Comment>, live: set<string>, t: nat)
    requires Acyclic(ById(comments)) && t < |Built(comments, live)|
    ensures var thread := Built(comments, live)[t];
            match thread.root.elementId
            case None => thread.anchor == NoAnchor
            case Some(e) => thread.anchor == if e in live then ElementAnchor(e) else MissingAnchor(e)
  {
    var ends := Ends(ById(comments), comments);
    var p := RootsBefore(comments, ends, |comments|)[t];
    assert Built(comments, live)[t] == ThreadAt(comments, ends, |comments|, p, live);
  }

  method BuildThreads(comments: seq<Comment>, liveElementIds: seq<string>) returns (threads: seq<Thread>)
    requires Acyclic(ById(comments))
    ensures threads == Built(comments, set e | e in liveElementIds)
    ensures forall t :: 0 <= t < |threads| ==>
              threads[t].anchor ==
              match threads[t].root.elementId
              case None => NoAnchor
              case Some(e) => if e in liveElementIds then ElementAnchor(e) else MissingAnchor(e)
  {
    var byId := ById(comments);
    var liveIds := set e | e in liveElementIds;
    KeyedById(comments);
    ghost var ends := Ends(byId, comments);
    threads := [];
    var byRootId: map<string, nat> := map[];
    for i := 0 to |comments|
      invariant threads == ThreadsOf(comments, ends, i, liveIds)
      invariant Directory(comments, ends, i, byRootId)
    {
      var comment := comments[i];
      var rootId := ResolveRootId(comment, byId);
      CommentLands(comments, ends, i, liveIds, byRootId);
      if rootId == comment.id {
        byRootId := byRootId[comment.id := |threads|];
        threads := threads + [Thread(comment, [], ClassifyAnchor(comment, liveIds))];
        continue;
      }
      if rootId in byRootId {
        threads := threads[byRootId[rootId] := WithReply(threads[byRootId[rootId]], comment)];
      }
    }
  }

  // ---------------------------------------------------------------------------------------------
  // Nothing is lost, nothing is doubled
  // ---------------------------------------------------------------------------------------------

  function AllIn(threads: seq<Thread>): multiset<Comment> {
    if threads == [] then multiset{}
    else
      var last := threads[|threads| - 1];
      AllIn(threads[..|threads| - 1]) + multiset{last.root} + multiset(last.replies)
  }

  lemma {:induction false} OneReplyMore(before: seq<Thread>, after: seq<Thread>, t: nat, c: Comment)
    requires |after| == |before| && t < |before|
    requires forall i :: 0 <= i < |before| ==> after[i] == if i == t then WithReply(before[i], c) else before[i]
    ensures AllIn(after) == AllIn(before) + multiset{c}
  {
    var n := |before| - 1;
    if t == n {
      assert after[..n] == before[..n];
    } else {
      OneReplyMore(before[..n], after[..n], t, c);
    }
  }

  /** A comment gets a place: it starts a thread, or a thread under its root's id started before it. */
  ghost predicate Placed(comments: seq<Comment>, ends: seq<string>, i: nat)
    requires |ends| == |comments| && i < |comments|
  {
    Starts(comments, ends, i) || LatestRoot(comments, ends, i, ends[i]).Some?
  }

  /** Every comment that starts no thread has its root before it in the list. */
  ghost predicate RootsFirst(comments: seq<Comment>, ends: seq<string>, n: nat)
    requires |ends| == |comments| && n <= |comments|
  {
    forall i :: 0 <= i < n ==> Placed(comments, ends, i)
  }

  /** The comments, of the first `n`, that do get a place. */
  ghost function PlacedIn(comments: seq<Comment>, ends: seq<string>, n: nat): multiset<Comment>
    requires |ends| == |comments| && n <= |comments|
  {
    if n == 0 then multiset{}
    else
      PlacedIn(comments, ends, n - 1) + if Placed(comments, ends, n - 1) then multiset{comments[n - 1]} else multiset{}
  }

  /** Some directory belongs to every prefix of the list. */
  lemma {:induction false} DirectoryExists(comments: seq<Comment>, ends: seq<string>, n: nat)
    returns (byRootId: map<string, nat>)
    requires |ends| == |comments| && n <= |comments|
    ensures Directory(comments, ends, n, byRootId)
  {
    byRootId := map[];
    if n > 0 {
      byRootId := DirectoryExists(comments, ends, n - 1);
      if !Starts(comments, ends, n - 1) {
        DirectoryKeeps(comments, ends, n - 1, byRootId);
      } else {
        DirectoryGains(comments, ends, n - 1, byRootId);
        byRootId := byRootId[comments[n - 1].id := |RootsBefore(comments, ends, n - 1)|];
      }
    }
  }

  lemma PlacedStep(comments: seq<Comment>, ends: seq<string>, n: nat)
    requires |ends| == |comments| && n < |comments|
    ensures PlacedIn(comments, ends, n + 1) ==
            PlacedIn(comments, ends, n) + if Placed(comments, ends, n) then multiset{comments[n]} else multiset{}
  {
  }

  /** The threads hold exactly the comments that get a place, each as often as the list does. */
  lemma {:induction false} PlacedCommentsAreKept(comments: seq<Comment>, ends: seq<string>, n: nat, live: set<string>)
    requires |ends| == |comments| && n <= |comments|
    ensures AllIn(ThreadsOf(comments, ends, n, live)) == PlacedIn(comments, ends, n)
  {
    if n > 0 {
      var m := n - 1;
      PlacedCommentsAreKept(comments, ends, m, live);
      OneMoreComment(comments, ends, m, live);
      PlacedStep(comments, ends, m);
    }
  }

  lemma OneMoreComment(comments: seq<Comment>, ends: seq<string>, n: nat, live: set<string>)
    requires |ends| == |comments| && n < |comments|
    ensures AllIn(ThreadsOf(comments, ends, n + 1, live)) ==
            AllIn(ThreadsOf(comments, ends, n, live)) +
            if Placed(comments, ends, n) then multiset{comments[n]} else multiset{}
  {
    var byRootId := DirectoryExists(comments, ends, n);
    CommentLands(comments, ends, n, live, byRootId);
    var before, after := ThreadsOf(comments, ends, n, live), ThreadsOf(comments, ends, n + 1, live);
    if Starts(comments, ends, n) {
      assert after[..|after| - 1] == before;
    } else if ends[n] in byRootId {
      OneReplyMore(before, after, byRootId[ends[n]], comments[n]);
    }
  }

  /**
   * Exactly when every comment of the list turns up once among all roots and replies: no reply
   * may stand before its root. A reply that does is dropped. Ids may repeat.
   */
  lemma {:induction false} EveryCommentOnceExactlyWhenRootsComeFirst(comments: seq<Comment>, live: set<string>)
    requires Acyclic(ById(comments))
    ensures AllIn(Built(comments, live)) == multiset(comments) <==>
            RootsFirst(comments, Ends(ById(comments), comments), |comments|)
  {
    var ends := Ends(ById(comments), comments);
    PlacedCommentsAreKept(comments, ends, |comments|, live);
    assert comments[..|comments|] == comments;
    if RootsFirst(comments, ends, |comments|) {
      AllPlaced(comments, ends, |comments|);
    } else {
      var i :| 0 <= i < |comments| && !Placed(comments, ends, i);
      OneNotPlaced(comments, ends, |comments|, i);
      assert |multiset(comments)| == |comments|;
    }
  }

  lemma {:induction false} AllPlaced(comments: seq<Comment>, ends: seq<string>, n: nat)
    requires |ends| == |comments| && n <= |comments| && RootsFirst(comments, ends, n)
    ensures PlacedIn(comments, ends, n) == multiset(comments[..n])
  {
    if n > 0 {
      var m := n - 1;
      assert Placed(comments, ends, m);
      AllPlaced(comments, ends, m);
      PlacedStep(comments, ends, m);
      OneMore(comments, m);
    }
  }

  lemma {:induction false} OneNotPlaced(comments: seq<Comment>, ends: seq<string>, n: nat, i: nat)
    requires |ends| == |comments| && i <= n <= |comments|
    ensures |PlacedIn(comments, ends, n)| <= n
    ensures i < n && !Placed(comments, ends, i) ==> |PlacedIn(comments, ends, n)| < n
  {
    if n > 0 {
      var m := n - 1;
      OneNotPlaced(comments, ends, m, if i < m then i else m);
      PlacedStep(comments, ends, m);
    }
  }

  lemma OneMore(comments: seq<Comment>, n: nat)
    requires n < |comments|
    ensures multiset(comments[..n + 1]) == multiset(comments[..n]) + multiset{comments[n]}
  {
    assert comments[..n + 1] == comments[..n] + [comments[n]];
  }

  /** The failing case: a reply that stands before its root is lost. */
  lemma ReplyBeforeItsRootIsLost(root: Comment, reply: Comment, live: set<string>)
    requires root.parentId.None? && reply.parentId == Some(root.id) && reply.id != root.id
    ensures var comments := [reply, root];
            && Acyclic(ById(comments))
            && Built(comments, live) == [Thread(root, [], ClassifyAnchor(root, live))]
  {
    var comments := [reply, root];
    assert comments[..1] == [reply] && [reply][..0] == [];
    assert ById([reply]) == map[reply.id := reply];
    var byId := ById(comments);
    assert byId == map[reply.id := reply, root.id := root];
    var rank: map<string, nat> := map[reply.id := 1, root.id := 0];
    assert Ranks(byId, rank);
    RootStep(byId, root.id);
    var ends := Ends(byId, comments);
    assert ends == [root.id, root.id];
    assert RootsBefore(comments, ends, 1) == RootsBefore(comments, ends, 0) == [];
    assert RootsBefore(comments, ends, 2) == [1];
    NoRepliesBefore(comments, ends, 2, 1);
  }

  // ---------------------------------------------------------------------------------------------
  // Oldest first
  // ---------------------------------------------------------------------------------------------

  ghost predicate Occurs(comments: seq<Comment>, n: nat, id: string)
    requires n <= |comments|
  {
    exists i :: 0 <= i < n && comments[i].id == id
  }

  /** Every known parent stands earlier in the list than its reply. */
  ghost predicate ParentsFirst(comments: seq<Comment>) {
    forall i :: 0 <= i < |comments| && comments[i].parentId.Some? ==>
      Occurs(comments, |comments|, comments[i].parentId.value) ==> Occurs(comments, i, comments[i].parentId.value)
  }

  lemma {:induction false} ByIdOf(comments: seq<Comment>, n: nat)
    requires UniqueIds(comments) && n <= |comments|
    ensures forall i :: 0 <= i < n ==>
              comments[i].id in ById(comments[..n]) && ById(comments[..n])[comments[i].id] == comments[i]
    ensures forall id :: id in ById(comments[..n]) <==> Occurs(comments, n, id)
  {
    if n > 0 {
      ByIdOf(comments, n - 1);
      assert comments[..n][..n - 1] == comments[..n - 1];
    }
  }

  /** Where each id stands in the list. */
  ghost function Positions(comments: seq<Comment>, n: nat): map<string, nat>
    requires n <= |comments|
  {
    if n == 0 then map[] else Positions(comments, n - 1)[comments[n - 1].id := n - 1]
  }

  lemma {:induction false} PositionsAreRight(comments: seq<Comment>, n: nat)
    requires UniqueIds(comments) && n <= |comments|
    ensures forall i :: 0 <= i < n ==>
              comments[i].id in Positions(comments, n) && Positions(comments, n)[comments[i].id] == i
  {
    if n > 0 {
      PositionsAreRight(comments, n - 1);
    }
  }

  lemma {:induction false} ParentsAreRankedLower(comments: seq<Comment>)
    requires UniqueIds(comments) && ParentsFirst(comments)
    ensures Ranks(ById(comments), Positions(comments, |comments|))
  {
    var byId, rank := ById(comments), Positions(comments, |comments|);
    ByIdOf(comments, |comments|);
    assert comments[..|comments|] == comments;
    PositionsAreRight(comments, |comments|);
    forall k | k in byId
      ensures k in rank
      ensures !IsTop(byId, byId[k]) ==> byId[k].parentId.value in rank && rank[byId[k].parentId.value] < rank[k]
    {
      var i :| 0 <= i < |comments| && comments[i].id == k;
      if !IsTop(byId, byId[k]) {
        var j :| 0 <= j < i && comments[j].id == byId[k].parentId.value;
      }
    }
  }

  /** A list that is oldest first has no circles, and every root comes before its replies. */
  lemma {:induction false} OldestFirstIsEnough(comments: seq<Comment>)
    requires UniqueIds(comments) && ParentsFirst(comments)
    ensures Acyclic(ById(comments)) && RootsFirst(comments, Ends(ById(comments), comments), |comments|)
  {
    ParentsAreRankedLower(comments);
    forall i | 0 <= i < |comments|
      ensures Placed(comments, Ends(ById(comments), comments), i)
    {
      RootComesFirst(comments, i);
    }
  }

  lemma {:induction false} RootComesFirst(comments: seq<Comment>, i: nat)
    requires Acyclic(ById(comments)) && UniqueIds(comments) && ParentsFirst(comments) && i < |comments|
    ensures Placed(comments, Ends(ById(comments), comments), i)
    decreases i
  {
    var byId, c := ById(comments), comments[i];
    var ends := Ends(byId, comments);
    ByIdOf(comments, |comments|);
    assert comments[..|comments|] == comments;
    if !IsTop(byId, c) {
      var j :| 0 <= j < i && comments[j].id == c.parentId.value;
      RootComesFirst(comments, j);
      RootStep(byId, comments[j].id);
      assert ends[j] == ends[i];
      if Starts(comments, ends, j) {
        StartIsFound(comments, ends, i, j);
      } else {
        LaterFindsMore(comments, ends, j, i, ends[i]);
      }
    }
  }

  lemma {:induction false} StartIsFound(comments: seq<Comment>, ends: seq<string>, n: nat, j: nat)
    requires |ends| == |comments| && j < n <= |comments| && Starts(comments, ends, j)
    ensures LatestRoot(comments, ends, n, comments[j].id).Some?
  {
    if j < n - 1 {
      StartIsFound(comments, ends, n - 1, j);
    }
  }

  lemma {:induction false} LaterFindsMore(comments: seq<Comment>, ends: seq<string>, m: nat, n: nat, id: string)
    requires |ends| == |comments| && m <= n <= |comments| && LatestRoot(comments, ends, m, id).Some?
    ensures LatestRoot(comments, ends, n, id).Some?
  {
    if m < n {
      LaterFindsMore(comments, ends, m, n - 1, id);
    }
  }

  /** For a list that is oldest first the threads hold every comment exactly once. */
  lemma {:induction false} ThreadsPartitionTheComments(comments: seq<Comment>, live: set<string>)
    requires UniqueIds(comments) && ParentsFirst(comments)
    ensures Acyclic(ById(comments))
    ensures AllIn(Built(comments, live)) == multiset(comments)
  {
    OldestFirstIsEnough(comments);
    EveryCommentOnceExactlyWhenRootsComeFirst(comments, live);
  }

  /**
   * A reply stands in the list after the root of its thread, and its parent chain ends at that
   * root's id; of several roots under one id it goes to the last one before it.
   */
  lemma {:induction false} RepliesBelongToTheirRoot(
    comments: seq<Comment>, ends: seq<string>, n: nat, p: nat, c: Comment)
    requires |ends| == |comments| && n <= |comments| && c in RepliesTo(comments, ends, n, p)
    ensures exists j :: p < j < n && comments[j] == c && IsReplyOf(comments, ends, p, j)
  {
    if c in RepliesTo(comments, ends, n - 1, p) {
      RepliesBelongToTheirRoot(comments, ends, n - 1, p, c);
    } else {
      assert RepliesIn(comments, ends, p, n - 1);
      LatestIsLast(comments, ends, n - 1, ends[n - 1]);
      assert IsReplyOf(comments, ends, p, n - 1);
    }
  }

  ghost predicate IsReplyOf(comments: seq<Comment>, ends: seq<string>, p: nat, j: nat)
    requires |ends| == |comments| && p < j < |comments|
  {
    && Starts(comments, ends, p) && !Starts(comments, ends, j) && ends[j] == comments[p].id
    && forall q :: p < q < j && Starts(comments, ends, q) ==> comments[q].id != comments[p].id
  }

  lemma {:induction false} LatestIsLast(comments: seq<Comment>, ends: seq<string>, n: nat, id: string)
    requires |ends| == |comments| && n <= |comments| && LatestRoot(comments, ends, n, id).Some?
    ensures var p := LatestRoot(comments, ends, n, id).value;
            && Starts(comments, ends, p) && comments[p].id == id
            && forall q :: p < q < n && Starts(comments, ends, q) ==> comments[q].id != id
  {
    if LatestRoot(comments, ends, n, id) != Some(n - 1) {
      LatestIsLast(comments, ends, n - 1, id);
    }
  }
}
