/** The social network of `customedDS/SocialGraph.py`: a dictionary of users
    keyed by identifier, and a directed graph with an edge from each
    follower to the user followed. The queries pick users by follower
    counts, intersect and subtract follower sets, and collect posts by
    topic. */
module SocialGraphs {
  import opened Common
  import opened Buckets
  import opened CustomDicts
  import opened Users
  import opened Digraphs

  // ---------------------------------------------------------------------
  // The users dictionary's iteration order

  /** The bucket a user identifier falls in. */
  function Bucket(id: int): nat {
    DictHash(Num(id))
  }

  /** The order in which a `CustomDict` holding the keys `ids` lists them:
      bucket by bucket, each key once. */
  ghost predicate Listing(order: seq<int>, ids: set<int>) {
    Distinct(order) && Elements(order) == ids
    && forall i, j :: 0 <= i < j < |order| ==> Bucket(order[i]) <= Bucket(order[j])
  }

  /** How many keys of a bucket-ordered listing lie in buckets up to `h`. */
  function Slot(order: seq<int>, h: nat): (p: nat)
    ensures p <= |order|
    ensures forall i :: p <= i < |order| ==> Bucket(order[i]) > h
    ensures p > 0 ==> Bucket(order[p - 1]) <= h
  {
    if order == [] then 0
    else if Bucket(order[|order| - 1]) <= h then |order|
    else Slot(order[..|order| - 1], h)
  }

  /** The listing after inserting a new key: `set` appends it to the end of
      its bucket, so it follows every key of its own and lower buckets and
      precedes the keys of higher ones. */
  function Enlisted(order: seq<int>, id: int): seq<int> {
    var p := Slot(order, Bucket(id));
    order[..p] + [id] + order[p..]
  }

  lemma EnlistedListing(order: seq<int>, ids: set<int>, id: int)
    requires Listing(order, ids) && id !in ids
    ensures Listing(Enlisted(order, id), ids + {id})
  {
    EnlistedSorted(order, id);
    EnlistedDistinct(order, ids, id);
    EnlistedElements(order, ids, id);
  }

  /** Where the old keys sit in the new listing. */
  lemma EnlistedAt(order: seq<int>, id: int)
    ensures var p := Slot(order, Bucket(id)); var r := Enlisted(order, id);
      |r| == |order| + 1 && r[p] == id
      && (forall i :: 0 <= i < p ==> r[i] == order[i])
      && (forall i :: p < i < |r| ==> r[i] == order[i - 1])
  {
  }

  lemma EnlistedSorted(order: seq<int>, id: int)
    requires forall i, j :: 0 <= i < j < |order| ==> Bucket(order[i]) <= Bucket(order[j])
    ensures var r := Enlisted(order, id);
      forall i, j :: 0 <= i < j < |r| ==> Bucket(r[i]) <= Bucket(r[j])
  {
    var p := Slot(order, Bucket(id));
    var r := Enlisted(order, id);
    EnlistedAt(order, id);
    forall i | 0 <= i < p ensures Bucket(order[i]) <= Bucket(id) {
      assert Bucket(order[i]) <= Bucket(order[p - 1]);
    }
    forall i, j | 0 <= i < j < |r| ensures Bucket(r[i]) <= Bucket(r[j]) {
      if j == p {
      } else if i == p {
      } else if i < p && j > p {
        assert Bucket(r[i]) <= Bucket(id) < Bucket(r[j]);
      } else if i < p {
        assert Bucket(order[i]) <= Bucket(order[j]);
      } else {
        assert Bucket(order[i - 1]) <= Bucket(order[j - 1]);
      }
    }
  }

  lemma EnlistedDistinct(order: seq<int>, ids: set<int>, id: int)
    requires Distinct(order) && Elements(order) == ids && id !in ids
    ensures Distinct(Enlisted(order, id))
  {
    var p := Slot(order, Bucket(id));
    var r := Enlisted(order, id);
    EnlistedAt(order, id);
    forall i, j | 0 <= i < j < |r| ensures r[i] != r[j] {
      if i != p && j != p {
        var i' := if i < p then i else i - 1;
        var j' := if j < p then j else j - 1;
        assert r[i] == order[i'] && r[j] == order[j'];
      } else if i == p {
        assert r[j] == order[j - 1] && order[j - 1] in Elements(order);
      } else {
        assert r[i] == order[i] && order[i] in Elements(order);
      }
    }
  }

  lemma EnlistedElements(order: seq<int>, ids: set<int>, id: int)
    requires Elements(order) == ids
    ensures Elements(Enlisted(order, id)) == ids + {id}
  {
    var p := Slot(order, Bucket(id));
    var r := Enlisted(order, id);
    EnlistedAt(order, id);
    forall x | x in r ensures x in ids + {id} {
      var k :| 0 <= k < |r| && r[k] == x;
      if k < p {
        assert order[k] in order;
      } else if k > p {
        assert order[k - 1] in order;
      }
    }
    forall x | x in ids + {id} ensures x in r {
      if x != id {
        assert x in Elements(order);
        var k :| 0 <= k < |order| && order[k] == x;
        if k < p {
          assert r[k] == x;
        } else {
          assert r[k + 1] == x;
        }
      }
    }
  }

  // ---------------------------------------------------------------------
  // The network as a value

  /** What the network knows about one user. */
  datatype Profile = Profile(name: string, followers: set<int>, posts: seq<Post>)

  type Network = map<int, Profile>

  /** What one user holds. */
  ghost function Snap(u: User): Profile
    reads u
  {
    Profile(u.name, u.followers, u.posts)
  }

  /** Every follower is a user: `add_follower` only links users. */
  predicate Closed(net: Network) {
    forall id :: id in net ==> net[id].followers <= net.Keys
  }

  // ---------------------------------------------------------------------
  // Choosing by score, as `max(items, key=...)` does

  /** The index `max` returns: the first position holding the largest
      score. */
  function Best(scores: seq<int>): (i: nat)
    requires |scores| > 0
    ensures i < |scores|
    ensures forall j :: 0 <= j < |scores| ==> scores[j] <= scores[i]
    ensures forall j :: 0 <= j < i ==> scores[j] < scores[i]
  {
    if |scores| == 1 then 0
    else
      var b := Best(scores[..|scores| - 1]);
      if scores[|scores| - 1] > scores[b] then |scores| - 1 else b
  }

  /** `max` keeps the first item and replaces it only by a larger one. */
  method Maximum(scores: seq<int>) returns (best: nat)
    requires |scores| > 0
    ensures best == Best(scores)
  {
    best := 0;
    for i := 1 to |scores|
      invariant best == Best(scores[..i])
    {
      assert scores[..i + 1][..i] == scores[..i];
      if scores[i] > scores[best] {
        best := i;
      }
    }
    assert scores[..|scores|] == scores;
  }

  /** The follower count of each listed user. */
  function Counts(net: Network, ids: seq<int>): (r: seq<int>)
    requires forall i :: 0 <= i < |ids| ==> ids[i] in net
    ensures |r| == |ids|
    ensures forall i :: 0 <= i < |ids| ==> r[i] == |net[ids[i]].followers|
  {
    seq(|ids|, i requires 0 <= i < |ids| => |net[ids[i]].followers|)
  }

  /** `most_influential_user`: the first listed user with the most
      followers, or none when there are no users. */
  function Influential(net: Network, order: seq<int>): (r: Option<int>)
    requires forall i :: 0 <= i < |order| ==> order[i] in net
    ensures r.None? <==> order == []
    ensures r.Some? ==> r.value in net
    ensures r.Some? ==> forall i :: 0 <= i < |order| ==> |net[order[i]].followers| <= |net[r.value].followers|
  {
    if order == [] then None else Some(order[Best(Counts(net, order))])
  }

  /** No user has more followers than the one chosen, and every user listed
      before it has fewer. */
  lemma InfluentialMost(net: Network, order: seq<int>)
    requires Listing(order, net.Keys)
    ensures Influential(net, order).None? <==> net == map[]
    ensures Influential(net, order).Some? ==>
      var id := Influential(net, order).value;
      id in net
      && (forall other :: other in net ==> |net[other].followers| <= |net[id].followers|)
      && forall i :: 0 <= i < |order| && order[i] == id ==>
           forall j :: 0 <= j < i ==> |net[order[j]].followers| < |net[id].followers|
  {
    if order == [] {
      assert net.Keys == Elements(order) == {};
    } else {
      assert order[0] in Elements(order);
      var b := Best(Counts(net, order));
      forall other | other in net ensures |net[other].followers| <= |net[order[b]].followers| {
        assert other in Elements(order);
        var k :| 0 <= k < |order| && order[k] == other;
        assert Counts(net, order)[k] <= Counts(net, order)[b];
      }
      forall i | 0 <= i < |order| && order[i] == order[b]
        ensures forall j :: 0 <= j < i ==> |net[order[j]].followers| < |net[order[b]].followers|
      {
        assert i == b;
      }
    }
  }

  // ---------------------------------------------------------------------
  // Activity

  /** The follower counts of the users in `fs`, added up. */
  ghost function Spread(net: Network, fs: set<int>): int
    requires fs <= net.Keys
    decreases fs
  {
    if fs == {} then 0
    else
      var f := Chosen(fs);
      |net[f].followers| + Spread(net, fs - {f})
  }

  /** Adding up does not depend on which follower comes first. */
  lemma {:induction false} SpreadRemove(net: Network, fs: set<int>, f: int)
    requires fs <= net.Keys && f in fs
    ensures Spread(net, fs) == |net[f].followers| + Spread(net, fs - {f})
    decreases fs
  {
    var g := Chosen(fs);
    if g != f {
      SpreadRemove(net, fs - {g}, f);
      SpreadRemove(net, fs - {f}, g);
      assert fs - {g} - {f} == fs - {f} - {g};
    }
  }

  /** A user's activity score: the user's own follower count plus the
      follower counts of each follower. */
  ghost function Activity(net: Network, id: int): int
    requires Closed(net) && id in net
  {
    |net[id].followers| + Spread(net, net[id].followers)
  }

  ghost function Activities(net: Network, ids: seq<int>): (r: seq<int>)
    requires Closed(net) && forall i :: 0 <= i < |ids| ==> ids[i] in net
    ensures |r| == |ids|
    ensures forall i :: 0 <= i < |ids| ==> r[i] == Activity(net, ids[i])
  {
    seq(|ids|, i requires 0 <= i < |ids| => Activity(net, ids[i]))
  }

  /** `most_active_user`: the identifier of the first listed user with the
      highest activity score, or none when there are no users. */
  ghost function Active(net: Network, order: seq<int>): (r: Option<int>)
    requires Closed(net) && forall i :: 0 <= i < |order| ==> order[i] in net
    ensures r.None? <==> order == []
    ensures r.Some? ==> r.value in net
    ensures r.Some? ==> forall i :: 0 <= i < |order| ==> Activity(net, order[i]) <= Activity(net, r.value)
  {
    if order == [] then None else Some(order[Best(Activities(net, order))])
  }

  lemma ActiveIs(net: Network, order: seq<int>, scores: seq<int>, best: nat)
    requires Closed(net) && order != [] && forall i :: 0 <= i < |order| ==> order[i] in net
    requires scores == Activities(net, order) && best == Best(scores)
    ensures Active(net, order) == Some(order[best])
  {
  }

  /** No user scores higher than the one chosen. */
  lemma ActiveMost(net: Network, order: seq<int>)
    requires Closed(net) && Listing(order, net.Keys)
    ensures Active(net, order).None? <==> net == map[]
    ensures Active(net, order).Some? ==>
      Active(net, order).value in net
      && forall other :: other in net ==> Activity(net, other) <= Activity(net, Active(net, order).value)
  {
    if order == [] {
      assert net.Keys == Elements(order) == {};
    } else {
      assert order[0] in Elements(order);
      var b := Best(Activities(net, order));
      forall other | other in net ensures Activity(net, other) <= Activity(net, order[b]) {
        assert other in Elements(order);
        var k :| 0 <= k < |order| && order[k] == other;
        assert Activities(net, order)[k] <= Activities(net, order)[b];
      }
    }
  }

  /** With no followers anywhere every score is zero. */
  lemma ActivityAlone(net: Network, id: int)
    requires Closed(net) && id in net && net[id].followers == {}
    ensures Activity(net, id) == 0
  {
  }

  // ---------------------------------------------------------------------
  // Follower-set queries

  /** `mutual_followers`: the users following both, nobody when either is
      unknown. */
  function Mutual(net: Network, a: int, b: int): (r: set<int>)
    ensures a !in net || b !in net ==> r == {}
    ensures a in net && b in net ==> r <= net[a].followers && r <= net[b].followers
  {
    if a in net && b in net then net[a].followers * net[b].followers else {}
  }

  lemma MutualFollowsBoth(net: Network, a: int, b: int, x: int)
    ensures x in Mutual(net, a, b) <==> a in net && b in net && x in net[a].followers && x in net[b].followers
    ensures Mutual(net, a, b) == Mutual(net, b, a)
  {
  }

  /** The followers of the users in `fs`, gathered. */
  function Reach(net: Network, fs: set<int>): set<int> {
    set f, x | f in fs && f in net && x in net[f].followers :: x
  }

  /** `suggested_follows`: the followers of the user's followers that do
      not follow the user already and are not the user. */
  function Suggested(net: Network, id: int): (r: set<int>)
    ensures id !in r
    ensures id !in net ==> r == {}
    ensures id in net ==> r !! net[id].followers
  {
    if id in net then Reach(net, net[id].followers) - net[id].followers - {id} else {}
  }

  /** A suggestion is reached through a follower, is new, and is not the
      user; in a closed network it is itself a user. */
  lemma SuggestedMeaning(net: Network, id: int, x: int)
    ensures x in Suggested(net, id) <==>
      id in net && x != id && x !in net[id].followers
      && exists f :: f in net[id].followers && f in net && x in net[f].followers
    ensures Closed(net) ==> Suggested(net, id) <= net.Keys
  {
    if x in Suggested(net, id) {
      var f :| f in net[id].followers && f in net && x in net[f].followers;
    }
  }

  lemma ReachGrow(net: Network, fs: set<int>, f: int)
    ensures Reach(net, fs + {f}) == Reach(net, fs) + (if f in net then net[f].followers else {})
  {
    var extra := if f in net then net[f].followers else {};
    forall x | x in Reach(net, fs + {f}) ensures x in Reach(net, fs) + extra {
      var g :| g in fs + {f} && g in net && x in net[g].followers;
      if g != f {
        assert x in Reach(net, fs);
      }
    }
    forall x | x in Reach(net, fs) + extra ensures x in Reach(net, fs + {f}) {
      if x in Reach(net, fs) {
        var g :| g in fs && g in net && x in net[g].followers;
        assert g in fs + {f};
      } else {
        assert f in fs + {f} && f in net && x in net[f].followers;
      }
    }
  }

  // ---------------------------------------------------------------------
  // Posts by topic

  /** The post lists the topic, compared in lower case. */
  predicate Tagged(post: Post, topic: string) {
    exists i :: 0 <= i < |post.topics| && Lower(post.topics[i]) == Lower(topic)
  }

  /** The bodies of the tagged posts, in order. */
  function Matching(posts: seq<Post>, topic: string): (r: seq<string>)
    ensures |r| <= |posts|
  {
    if posts == [] then []
    else
      var last := posts[|posts| - 1];
      Matching(posts[..|posts| - 1], topic) + if Tagged(last, topic) then [last.body] else []
  }

  /** `search_posts_by_topic`: user by user in listing order, the bodies
      of the tagged posts. */
  function Found(net: Network, ids: seq<int>, topic: string): (r: seq<string>)
    requires forall i :: 0 <= i < |ids| ==> ids[i] in net
    ensures ids == [] ==> r == []
    ensures forall k :: 0 <= k < |r| ==> exists i :: 0 <= i < |ids| && r[k] in Matching(net[ids[i]].posts, topic)
  {
    if ids == [] then []
    else
      var front := Found(net, ids[..|ids| - 1], topic);
      var last := Matching(net[ids[|ids| - 1]].posts, topic);
      assert forall k :: 0 <= k < |front + last| ==> exists i :: 0 <= i < |ids| && (front + last)[k] in Matching(net[ids[i]].posts, topic) by {
        forall k | 0 <= k < |front + last|
          ensures exists i :: 0 <= i < |ids| && (front + last)[k] in Matching(net[ids[i]].posts, topic)
        {
          if k < |front| {
            var i :| 0 <= i < |ids| - 1 && front[k] in Matching(net[ids[..|ids| - 1][i]].posts, topic);
            assert ids[..|ids| - 1][i] == ids[i];
          } else {
            assert (front + last)[k] == last[k - |front|];
          }
        }
      }
      front + last
  }

  /** Every body found belongs to a tagged post, and every tagged post's
      body is found. */
  lemma {:induction false} MatchingMeaning(posts: seq<Post>, topic: string, body: string)
    ensures body in Matching(posts, topic) <==>
      exists j :: 0 <= j < |posts| && Tagged(posts[j], topic) && posts[j].body == body
    decreases |posts|
  {
    if posts != [] {
      var front := posts[..|posts| - 1];
      MatchingMeaning(front, topic, body);
      if body in Matching(front, topic) {
        var j :| 0 <= j < |front| && Tagged(front[j], topic) && front[j].body == body;
        assert posts[j] == front[j];
      } else if body in Matching(posts, topic) {
        assert Tagged(posts[|posts| - 1], topic) && posts[|posts| - 1].body == body;
      }
      if exists j :: 0 <= j < |posts| && Tagged(posts[j], topic) && posts[j].body == body {
        var j :| 0 <= j < |posts| && Tagged(posts[j], topic) && posts[j].body == body;
        if j < |front| {
          assert front[j] == posts[j];
        }
      }
    }
  }

  /** The results of two runs of users follow each other. */
  lemma {:induction false} FoundAppend(net: Network, a: seq<int>, b: seq<int>, topic: string)
    requires forall i :: 0 <= i < |a| ==> a[i] in net
    requires forall i :: 0 <= i < |b| ==> b[i] in net
    ensures Found(net, a + b, topic) == Found(net, a, topic) + Found(net, b, topic)
    decreases |b|
  {
    if b == [] {
      assert a + b == a;
    } else {
      var front := b[..|b| - 1];
      FoundAppend(net, a, front, topic);
      assert (a + b)[..|a + b| - 1] == a + front;
    }
  }

  // ---------------------------------------------------------------------
  // The class

  class SocialGraph {
    /** The users dictionary, by the mapping it represents. */
    var users: map<int, User>
    /** The users dictionary's keys in its iteration order. */
    var order: seq<int>
    const graph: CustomDiGraph

    /** The users held. */
    ghost function Members(): set<User>
      reads this
    {
      users.Values
    }

    /** What the users hold. */
    ghost function Network(): Network
      reads this, Members()
    {
      map id | id in users :: Snap(users[id])
    }

    /** Each user is stored under its own identifier, the listing is the
        dictionary's, and every follower is a user. */
    ghost predicate Valid()
      reads this, Members()
    {
      (forall id :: id in users ==> users[id].userId == id)
      && Listing(order, users.Keys)
      && forall id :: id in users ==> users[id].followers <= users.Keys
    }

    /** The network entry of each user. */
    lemma Snapshot()
      ensures Network().Keys == users.Keys
      ensures forall id :: id in users ==> Network()[id] == Snap(users[id])
    {
    }

    /** The listing names users only, and the network is closed. */
    lemma Listed()
      requires Valid()
      ensures forall i :: 0 <= i < |order| ==> order[i] in users
      ensures Listing(order, Network().Keys) && Closed(Network())
    {
      Snapshot();
      forall i | 0 <= i < |order| ensures order[i] in users {
        assert order[i] in Elements(order);
      }
    }

    constructor()
      ensures Valid() && users == map[] && order == []
      ensures fresh(graph) && graph.nodes == map[] && graph.edges == map[]
    {
      users := map[];
      order := [];
      graph := new CustomDiGraph();
    }

    /** `add_user`: a new identifier gets a user with no followers and no
        posts and a graph node; an existing one is left as it is, name
        included. */
    method AddUser(userId: int, name: string)
      requires Valid()
      modifies this, graph
      ensures Valid()
      ensures userId in old(users) ==>
        Network() == old(Network()) && order == old(order)
        && graph.nodes == old(graph.nodes) && graph.edges == old(graph.edges)
      ensures userId !in old(users) ==>
        Network() == old(Network())[userId := Profile(name, {}, [])]
        && order == Enlisted(old(order), userId)
        && graph.nodes == old(graph.nodes)[Num(userId) := map[]] && graph.edges == old(graph.edges)
    {
      assert Elements(order) == users.Keys;
      if userId !in order {
        assert userId !in users;
        ghost var before := Network();
        Snapshot();
        var user := new User(userId, name);
        Snapshot();
        assert Network() == before;
        Insert(user);
        Place(userId);
      }
    }

    /** The graph part of `add_user`: a node for the new user; the users
        are not touched. */
    method Place(userId: int)
      requires Valid()
      modifies graph
      ensures Valid() && Network() == old(Network())
      ensures graph.nodes == old(graph.nodes)[Num(userId) := map[]] && graph.edges == old(graph.edges)
    {
      ghost var before := Network();
      Snapshot();
      graph.AddNode(Num(userId));
      assert forall id :: id in users ==> unchanged(users[id]);
      Snapshot();
      assert Network() == before;
    }

    /** The dictionary part of `add_user` for a new identifier: the new
        user stored under its identifier. */
    method Insert(user: User)
      requires Valid() && user.userId !in users
      requires user.followers == {} && user.posts == []
      modifies this
      ensures Valid()
      ensures Network() == old(Network())[user.userId := Profile(user.name, {}, [])]
      ensures order == Enlisted(old(order), user.userId)
    {
      ghost var before := Network();
      Snapshot();
      var userId := user.userId;
      EnlistedListing(order, users.Keys, userId);
      users := users[userId := user];
      order := Enlisted(order, userId);
      Rewritten(before, userId);
    }

    /** `add_follower`: when both are users, the follower joins the user's
        followers and the graph gains the edge from follower to user;
        otherwise nothing changes. */
    method AddFollower(userId: int, followerId: int)
      requires Valid()
      modifies this, graph, Members()
      ensures Valid()
      ensures users == old(users) && order == old(order)
      ensures userId in old(users) && followerId in old(users) ==>
        Network() == old(Network())[userId := old(Network())[userId].(followers := old(Network())[userId].followers + {followerId})]
        && graph.nodes == Included(Included(old(graph.nodes), Num(followerId)), Num(userId))
        && graph.edges == Linked(old(graph.edges), Num(followerId), Num(userId))
      ensures !(userId in old(users) && followerId in old(users)) ==>
        Network() == old(Network()) && graph.nodes == old(graph.nodes) && graph.edges == old(graph.edges)
    {
      assert Elements(order) == users.Keys;
      if userId in order && followerId in order {
        Follow(userId, followerId);
        Connect(userId, followerId);
      }
    }

    /** The graph part of `add_follower`: the edge from follower to user;
        the users are not touched. */
    method Connect(userId: int, followerId: int)
      requires Valid()
      modifies graph
      ensures Valid() && Network() == old(Network())
      ensures graph.nodes == Included(Included(old(graph.nodes), Num(followerId)), Num(userId))
      ensures graph.edges == Linked(old(graph.edges), Num(followerId), Num(userId))
    {
      ghost var before := Network();
      Snapshot();
      graph.AddEdge(Num(followerId), Num(userId));
      assert forall id :: id in users ==> unchanged(users[id]);
      Snapshot();
      assert Network() == before;
    }

    /** The user part of `add_follower`: fetch, add, store back. */
    method Follow(userId: int, followerId: int)
      requires Valid() && userId in users && followerId in users
      modifies this, Members()
      ensures Valid()
      ensures users == old(users) && order == old(order)
      ensures Network() == old(Network())[userId := old(Network())[userId].(followers := old(Network())[userId].followers + {followerId})]
    {
      ghost var before := Network();
      Snapshot();
      var user := users[userId];
      assert users[userId := user] == users;
      user.AddFollower(followerId);
      users := users[userId := user];
      Rewritten(before, userId);
    }

    /** `add_post`: an existing user's posts gain the post at the end;
        otherwise nothing changes. */
    method AddPost(userId: int, post: Post)
      requires Valid()
      modifies this, Members()
      ensures Valid()
      ensures users == old(users) && order == old(order)
      ensures userId in old(users) ==>
        Network() == old(Network())[userId := old(Network())[userId].(posts := old(Network())[userId].posts + [post])]
      ensures userId !in old(users) ==> Network() == old(Network())
    {
      assert Elements(order) == users.Keys;
      if userId in order {
        ghost var before := Network();
        Snapshot();
        var user := users[userId];
        assert users[userId := user] == users;
        user.AddPost(post);
        users := users[userId := user];
        Rewritten(before, userId);
      }
    }

    /** After changing one user only, the other users read as before. */
    lemma Rewritten(before: Network, userId: int)
      requires userId in users && users.Keys == before.Keys + {userId}
      requires forall id :: id in users ==> users[id].userId == id
      requires forall id :: id in users && id != userId ==>
        before[id] == Snap(users[id])
      ensures Network() == before[userId := Snap(users[userId])]
    {
    }

    /** `most_influential_user`. */
    method MostInfluential() returns (r: Option<User>)
      requires Valid()
      ensures forall i :: 0 <= i < |order| ==> order[i] in Network()
      ensures r.None? <==> Influential(Network(), order).None?
      ensures r.Some? ==> Influential(Network(), order) == Some(r.value.userId) && r.value == users[r.value.userId]
    {
      Listed();
      if |order| == 0 {
        return None;
      }
      var counts := FollowerCounts();
      ghost var net := Network();
      var best := Maximum(counts);
      assert net == Network();
      var id := order[best];
      assert Influential(net, order) == Some(id);
      assert users[id].userId == id;
      r := Some(users[id]);
    }

    /** The key of `most_influential_user`'s `max`, user by user. */
    method FollowerCounts() returns (counts: seq<int>)
      requires Valid()
      ensures forall i :: 0 <= i < |order| ==> order[i] in users && order[i] in Network()
      ensures counts == Counts(Network(), order)
    {
      Listed();
      Snapshot();
      ghost var net := Network();
      counts := [];
      for i := 0 to |order|
        invariant counts == Counts(net, order[..i])
      {
        counts := counts + [|users[order[i]].followers|];
      }
      assert order[..|order|] == order;
    }

    /** The sum of the follower counts of one user's followers, in any
        order; the source sums the `CustomSet` in its iteration order. */
    method FollowerSum(id: int) returns (total: int)
      requires Valid() && id in users
      ensures Closed(Network()) && id in Network()
      ensures total == Spread(Network(), Network()[id].followers)
    {
      Listed();
      Snapshot();
      ghost var net := Network();
      var rest := users[id].followers;
      total := 0;
      while rest != {}
        invariant rest <= net[id].followers
        invariant total + Spread(net, rest) == Spread(net, net[id].followers)
        decreases rest
      {
        var f := Pick(rest);
        SpreadRemove(net, rest, f);
        total := total + |users[f].followers|;
        rest := rest - {f};
      }
      assert Spread(net, rest) == 0;
      assert net == Network();
      assert total == Spread(net, net[id].followers);
    }

    /** `most_active_user`: the scores are computed in listing order, as the
        score dictionary is filled from `items()` and so lists its keys in
        the same order. */
    method MostActive() returns (r: Option<int>)
      requires Valid()
      ensures Closed(Network()) && forall i :: 0 <= i < |order| ==> order[i] in Network()
      ensures r == Active(Network(), order)
    {
      Listed();
      if |order| == 0 {
        return None;
      }
      var scores := ActiveScores();
      ghost var net := Network();
      var best := Maximum(scores);
      assert net == Network();
      r := Some(order[best]);
      ActiveIs(net, order, scores, best);
    }

    /** The filling of the score dictionary, user by user. */
    method ActiveScores() returns (scores: seq<int>)
      requires Valid()
      ensures Closed(Network()) && forall i :: 0 <= i < |order| ==> order[i] in Network()
      ensures scores == Activities(Network(), order)
    {
      Listed();
      Snapshot();
      ghost var net := Network();
      scores := [];
      for i := 0 to |order|
        invariant scores == Activities(net, order[..i])
      {
        var spread := FollowerSum(order[i]);
        assert net == Network();
        assert Activity(net, order[i]) == |users[order[i]].followers| + spread;
        scores := scores + [|users[order[i]].followers| + spread];
      }
      assert order[..|order|] == order;
      assert net == Network();
    }

    /** `mutual_followers`: the intersection of the two follower sets. */
    method MutualFollowers(a: int, b: int) returns (r: set<int>)
      requires Valid()
      ensures r == Mutual(Network(), a, b)
    {
      Snapshot();
      if a in users && b in users {
        r := users[a].followers * users[b].followers;
      } else {
        r := {};
      }
    }

    /** `suggested_follows`: gathers the followers of each follower, then
        removes the user's own followers and the user. */
    method SuggestedFollows(id: int) returns (r: set<int>)
      requires Valid()
      ensures r == Suggested(Network(), id)
    {
      Listed();
      Snapshot();
      if id !in users {
        return {};
      }
      ghost var net := Network();
      var followers := users[id].followers;
      var rest := followers;
      var gathered: set<int> := {};
      while rest != {}
        invariant rest <= followers
        invariant gathered == Reach(net, followers - rest)
        decreases rest
      {
        var f := Pick(rest);
        ReachGrow(net, followers - rest, f);
        assert followers - rest + {f} == followers - (rest - {f});
        gathered := gathered + users[f].followers;
        rest := rest - {f};
      }
      assert followers - rest == followers;
      r := gathered - followers - {id};
    }

    /** `search_posts_by_topic`: user by user in listing order, post by
        post, the bodies of the posts tagged with the topic. */
    method SearchPostsByTopic(topic: string) returns (r: seq<string>)
      requires Valid()
      ensures forall i :: 0 <= i < |order| ==> order[i] in Network()
      ensures r == Found(Network(), order, topic)
    {
      Listed();
      Snapshot();
      ghost var net := Network();
      r := [];
      for i := 0 to |order|
        invariant r == Found(net, order[..i], topic)
      {
        var found := PostsOf(users[order[i]].posts, topic);
        assert order[..i + 1][..i] == order[..i];
        r := r + found;
      }
      assert order[..|order|] == order;
      assert net == Network();
    }
  }

  /** The element `Spread` takes first. */
  ghost function Chosen<T>(s: set<T>): (x: T)
    requires s != {}
    ensures x in s
  {
    var x :| x in s; x
  }

  /** Some element of a non-empty set, as iterating over it yields first. */
  method Pick<T>(s: set<T>) returns (x: T)
    requires s != {}
    ensures x in s
  {
    x :| x in s;
  }

  /** The inner loop of `search_posts_by_topic` over one user's posts. */
  method PostsOf(posts: seq<Post>, topic: string) returns (r: seq<string>)
    ensures r == Matching(posts, topic)
  {
    var key := Lower(topic);
    r := [];
    for j := 0 to |posts|
      invariant r == Matching(posts[..j], topic)
    {
      var lowered := LowerAll(posts[j].topics);
      assert posts[..j + 1][..j] == posts[..j];
      if key in lowered {
        r := r + [posts[j].body];
      }
    }
    assert posts[..|posts|] == posts;
  }

  /** `[t.lower() for t in topics]`. */
  method LowerAll(topics: seq<string>) returns (r: seq<string>)
    ensures |r| == |topics|
    ensures forall i :: 0 <= i < |topics| ==> r[i] == Lower(topics[i])
  {
    r := [];
    for i := 0 to |topics|
      invariant |r| == i
      invariant forall k :: 0 <= k < i ==> r[k] == Lower(topics[k])
    {
      r := r + [Lower(topics[i])];
    }
  }
}
