/** A member of the social network (`customedDS/User.py`): an identifier
    and a name fixed at construction, the set of identifiers following the
    user, and the user's posts in the order they were added. */
module Users {
  /** A post: the `'body'` text and the `'topics'` list of the post
      dictionary. */
  datatype Post = Post(body: string, topics: seq<string>)

  class User {
    const userId: int
    const name: string
    /** The identifiers of the followers; the `CustomSet` of the source,
        modelled by the set it represents. */
    var followers: set<int>
    var posts: seq<Post>

    /** A new user has no followers and no posts. */
    constructor(userId: int, name: string)
      ensures this.userId == userId && this.name == name
      ensures followers == {} && posts == []
    {
      this.userId := userId;
      this.name := name;
      followers := {};
      posts := [];
    }

    /** A set insertion: adding a follower twice is the same as adding it once. */
    method AddFollower(followerId: int)
      modifies this
      ensures followers == old(followers) + {followerId}
      ensures posts == old(posts)
    {
      followers := followers + {followerId};
    }

    /** Appends at the end, keeping earlier posts and duplicates. */
    method AddPost(post: Post)
      modifies this
      ensures posts == old(posts) + [post]
      ensures followers == old(followers)
    {
      posts := posts + [post];
    }
  }
}
