/**
 * The twitter program's accounts, with exactly the fields the comment and reaction
 * instructions use, and the ledger object those instructions update.
 *
 * A program-derived address is its seed tuple together with its bump. The runtime's
 * canonical-bump search and the hash used in comment seeds are deterministic
 * functions whose details the model leaves open: they are carried in `Runtime`.
 */
module TwitterState {
  import opened Solana

  /** `COMMENT_LENGTH`: bytes in a comment's content buffer. */
  const COMMENT_LENGTH: nat := 500

  datatype Pubkey =
    | User(id: nat)
    | Pda(seeds: Seeds, bump: u8)

  datatype Seeds =
      /** `[topic[..topic_length], TWEET_SEED, tweet_author]` */
    | TweetSeeds(topic: Bytes, author: Pubkey)
      /** `[TWEET_REACTION_SEED, reaction_author, tweet]` */
    | ReactionSeeds(author: Pubkey, tweet: Pubkey)
      /** `[COMMENT_SEED, comment_author, hash(content), tweet]` */
    | CommentSeeds(author: Pubkey, contentHash: Bytes, tweet: Pubkey)

  datatype ReactionType = Like | Dislike

  datatype Tweet = Tweet(tweetAuthor: Pubkey, topic: Bytes, topicLength: u8, likes: u64, dislikes: u64, bump: u8)

  datatype Reaction = Reaction(reactionAuthor: Pubkey, parentTweet: Pubkey, reaction: ReactionType, bump: u8)

  /** `content` is the fixed `[u8; COMMENT_LENGTH]` buffer; its first `contentLength` bytes are the text. */
  datatype Comment = Comment(commentAuthor: Pubkey, parentTweet: Pubkey, content: Bytes, contentLength: u16, bump: u8)

  datatype Account =
    | TweetAccount(tweet: Tweet)
    | ReactionAccount(reaction: Reaction)
    | CommentAccount(comment: Comment)

  type Store = map<Pubkey, Account>

  datatype Error =
      // the program's own errors
    | CommentTooLong
    | MaxLikesReached
    | MinLikesReached
      // raised by Anchor's account validation
    | ConstraintSeeds
    | AccountNotInitialized
    | AccountDiscriminatorMismatch
      // the system program refuses to create an account over an occupied address
    | AccountAlreadyInUse
      // `tweet.topic[..tweet.topic_length as usize]` past the end of the buffer panics
    | SliceIndexPanic

  /** The runtime's deterministic pieces: the canonical bump `find_program_address` finds, and `hash`. */
  datatype Runtime = Runtime(canonicalBump: Seeds -> u8, hash: Bytes -> Bytes)

  /** `find_program_address`: the address of `seeds` at their canonical bump. */
  function FindProgramAddress(rt: Runtime, seeds: Seeds): Pubkey
  {
    Pda(seeds, rt.canonicalBump(seeds))
  }

  function LoadTweet(s: Store, k: Pubkey): Result<Tweet, Error>
  {
    if k !in s then Err(AccountNotInitialized)
    else if !s[k].TweetAccount? then Err(AccountDiscriminatorMismatch)
    else Ok(s[k].tweet)
  }

  function LoadReaction(s: Store, k: Pubkey): Result<Reaction, Error>
  {
    if k !in s then Err(AccountNotInitialized)
    else if !s[k].ReactionAccount? then Err(AccountDiscriminatorMismatch)
    else Ok(s[k].reaction)
  }

  /**
   * The `tweet` constraint all three instructions share: its key must be the address
   * re-derived from the first `topicLength` bytes of its topic and its author, with
   * its stored bump.
   */
  predicate TweetKeyMatches(t: Tweet, key: Pubkey)
  {
    t.topicLength <= |t.topic| && key == Pda(TweetSeeds(t.topic[..t.topicLength], t.tweetAuthor), t.bump)
  }

  /** Checking `TweetKeyMatches`; slicing the topic past its end panics before any seed is compared. */
  function CheckTweetKey(t: Tweet, key: Pubkey): (r: Outcome<Error>)
    ensures r.Pass? <==> TweetKeyMatches(t, key)
    ensures r.Fail? ==> (r.error == SliceIndexPanic <==> t.topicLength > |t.topic|)
    ensures r.Fail? ==> r.error in {SliceIndexPanic, ConstraintSeeds}
  {
    if t.topicLength > |t.topic| then Fail(SliceIndexPanic)
    else if key != Pda(TweetSeeds(t.topic[..t.topicLength], t.tweetAuthor), t.bump) then Fail(ConstraintSeeds)
    else Pass
  }

  /** The counter of a tweet that reactions of `kind` move. */
  function Count(t: Tweet, kind: ReactionType): u64
  {
    match kind
    case Like => t.likes
    case Dislike => t.dislikes
  }

  function Other(kind: ReactionType): (r: ReactionType)
    ensures r != kind
  {
    match kind
    case Like => Dislike
    case Dislike => Like
  }

  ghost predicate HasTweet(s: Store, k: Pubkey)
  {
    k in s && s[k].TweetAccount?
  }

  /** The reactions of kind `kind` recorded for the tweet at `t`. */
  ghost function ReactionsOf(s: Store, t: Pubkey, kind: ReactionType): set<Pubkey>
  {
    set k | k in s && s[k].ReactionAccount? && s[k].reaction.parentTweet == t && s[k].reaction.reaction == kind
  }

  /**
   * A reaction sits at the canonical address of its author and its tweet, its stored
   * bump is that address's bump, and its tweet exists.
   */
  ghost predicate ReactionAtHome(rt: Runtime, s: Store, k: Pubkey)
    requires k in s && s[k].ReactionAccount?
  {
    var r := s[k].reaction;
    var seeds := ReactionSeeds(r.reactionAuthor, r.parentTweet);
    && r.bump == rt.canonicalBump(seeds)
    && k == Pda(seeds, r.bump)
    && HasTweet(s, r.parentTweet)
  }

  /** A comment keeps its text in the first `contentLength` bytes of a zero-padded buffer. */
  ghost predicate CommentLaidOut(c: Comment)
  {
    && |c.content| == COMMENT_LENGTH
    && c.contentLength <= COMMENT_LENGTH
    && forall i :: c.contentLength <= i < COMMENT_LENGTH ==> c.content[i] == 0
  }

  /** The text a well laid out comment holds. */
  ghost function CommentText(c: Comment): Bytes
    requires CommentLaidOut(c)
  {
    c.content[..c.contentLength]
  }

  /**
   * A comment sits at the canonical address of its author, the hash of its text and
   * its tweet, and its stored bump is that address's bump, so the stored record alone
   * locates the account.
   */
  ghost predicate CommentAtHome(rt: Runtime, s: Store, k: Pubkey)
    requires k in s && s[k].CommentAccount?
  {
    var c := s[k].comment;
    && CommentLaidOut(c)
    && var seeds := CommentSeeds(c.commentAuthor, rt.hash(CommentText(c)), c.parentTweet);
    && c.bump == rt.canonicalBump(seeds)
    && k == Pda(seeds, c.bump)
  }

  /** Every tweet's `likes` and `dislikes` count its reactions of each kind. */
  ghost predicate CountsMatch(s: Store)
  {
    forall k :: HasTweet(s, k) ==>
      s[k].tweet.likes == |ReactionsOf(s, k, Like)| && s[k].tweet.dislikes == |ReactionsOf(s, k, Dislike)|
  }

  /** The store invariant the three instructions keep. */
  ghost predicate Consistent(rt: Runtime, s: Store)
  {
    && (forall k :: k in s && s[k].ReactionAccount? ==> ReactionAtHome(rt, s, k))
    && (forall k :: k in s && s[k].CommentAccount? ==> CommentAtHome(rt, s, k))
    && CountsMatch(s)
  }

  /** In a consistent store an author holds at most one reaction to a tweet, whatever its kind. */
  lemma OneReactionPerAuthorAndTweet(rt: Runtime, s: Store, k1: Pubkey, k2: Pubkey)
    requires Consistent(rt, s)
    requires k1 in s && s[k1].ReactionAccount? && k2 in s && s[k2].ReactionAccount?
    requires s[k1].reaction.reactionAuthor == s[k2].reaction.reactionAuthor
    requires s[k1].reaction.parentTweet == s[k2].reaction.parentTweet
    ensures k1 == k2
  {
  }

  /**
   * In a consistent store an author holds at most one comment per tweet and text hash:
   * two comments agreeing on those are one account.
   */
  lemma OneCommentPerAuthorTweetAndHash(rt: Runtime, s: Store, k1: Pubkey, k2: Pubkey)
    requires Consistent(rt, s)
    requires k1 in s && s[k1].CommentAccount? && k2 in s && s[k2].CommentAccount?
    requires CommentLaidOut(s[k1].comment) && CommentLaidOut(s[k2].comment)
    requires s[k1].comment.commentAuthor == s[k2].comment.commentAuthor
    requires s[k1].comment.parentTweet == s[k2].comment.parentTweet
    requires rt.hash(CommentText(s[k1].comment)) == rt.hash(CommentText(s[k2].comment))
    ensures k1 == k2
  {
  }

  class Ledger {
    const rt: Runtime
    var accounts: Store

    /** The store invariant every instruction keeps. */
    ghost predicate Valid()
      reads this
    {
      Consistent(rt, accounts)
    }

    /** Tweets come from an instruction outside this model, so the ledger starts from a given consistent store. */
    constructor (rt: Runtime, accounts: Store)
      requires Consistent(rt, accounts)
      ensures this.rt == rt && this.accounts == accounts
      ensures Valid()
    {
      this.rt := rt;
      this.accounts := accounts;
    }
  }
}
