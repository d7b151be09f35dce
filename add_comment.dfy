/**
 * `add_comment`: `init` a comment at the address derived from its author, the hash of
 * its text and its tweet; the text must fit in `COMMENT_LENGTH` bytes and is stored
 * zero-padded in a fixed buffer beside its length.
 */
module TwitterAddComment {
  import opened Solana
  import opened TwitterState

  /** The `[u8; COMMENT_LENGTH]` buffer holding `bytes` followed by zeros. */
  function Padded(bytes: Bytes): (r: Bytes)
    requires |bytes| <= COMMENT_LENGTH
    ensures |r| == COMMENT_LENGTH
    ensures r[..|bytes|] == bytes
    ensures forall i :: |bytes| <= i < COMMENT_LENGTH ==> r[i] == 0
  {
    bytes + seq(COMMENT_LENGTH - |bytes|, _ => 0)
  }

  /** A zeroed buffer with `bytes` copied into its front, as `copy_from_slice` does it. */
  method PadContent(bytes: Bytes) returns (content: Bytes)
    requires |bytes| <= COMMENT_LENGTH
    ensures content == Padded(bytes)
  {
    var data := new u8[COMMENT_LENGTH](_ => 0);
    for i := 0 to |bytes|
      invariant forall j :: 0 <= j < i ==> data[j] == bytes[j]
      invariant forall j :: i <= j < COMMENT_LENGTH ==> data[j] == 0
    {
      data[i] := bytes[i];
    }
    content := data[..];
    var expected := Padded(bytes);
    forall j | 0 <= j < COMMENT_LENGTH
      ensures content[j] == expected[j]
    {
      if j < |bytes| {
        assert expected[j] == expected[..|bytes|][j];
      }
    }
  }

  /** The comment record `add_comment` writes for `content`, with the bump the address was found at. */
  function NewComment(signer: Pubkey, tweetKey: Pubkey, content: Bytes, bump: u8): (c: Comment)
    requires |content| <= COMMENT_LENGTH
    ensures CommentLaidOut(c) && CommentText(c) == content
    ensures c.commentAuthor == signer && c.parentTweet == tweetKey && c.contentLength == |content| && c.bump == bump
  {
    Comment(signer, tweetKey, Padded(content), |content|, bump)
  }

  /**
   * The instruction as a transition: deserialize `tweet`, derive and `init` `comment`,
   * check `tweet`'s own seeds, then the handler's length check and writes.
   */
  function AddCommentStep(rt: Runtime, s: Store, signer: Pubkey, commentKey: Pubkey, tweetKey: Pubkey, content: Bytes)
    : (r: Result<Store, Error>)
    ensures r.Ok? <==>
      && HasTweet(s, tweetKey)
      && commentKey == FindProgramAddress(rt, CommentSeeds(signer, rt.hash(content), tweetKey))
      && commentKey !in s
      && TweetKeyMatches(s[tweetKey].tweet, tweetKey)
      && |content| <= COMMENT_LENGTH
    ensures r.Ok? ==>
      && r.value.Keys == s.Keys + {commentKey}
      && r.value[commentKey].CommentAccount?
      && var c := r.value[commentKey].comment;
      && CommentLaidOut(c)
      && CommentText(c) == content
      && c.commentAuthor == signer
      && c.parentTweet == tweetKey
      && c.contentLength == |content|
      && c.bump == rt.canonicalBump(CommentSeeds(signer, rt.hash(content), tweetKey))
      && forall k :: k in s ==> r.value[k] == s[k]
  {
    match LoadTweet(s, tweetKey)
    case Err(e) => Err(e)
    case Ok(tweet) =>
      var seeds := CommentSeeds(signer, rt.hash(content), tweetKey);
      if commentKey != FindProgramAddress(rt, seeds) then Err(ConstraintSeeds)
      else if commentKey in s then Err(AccountAlreadyInUse)
      else match CheckTweetKey(tweet, tweetKey)
        case Fail(e) => Err(e)
        case Pass =>
          if |content| > COMMENT_LENGTH then Err(CommentTooLong)
          else Ok(s[commentKey := CommentAccount(NewComment(signer, tweetKey, content, rt.canonicalBump(seeds)))])
  }

  /** The accounts `add_comment` accepts before its body runs. */
  ghost predicate AddCommentAccountsValid(rt: Runtime, s: Store, signer: Pubkey, commentKey: Pubkey, tweetKey: Pubkey, content: Bytes)
  {
    && HasTweet(s, tweetKey)
    && commentKey == FindProgramAddress(rt, CommentSeeds(signer, rt.hash(content), tweetKey))
    && commentKey !in s
    && TweetKeyMatches(s[tweetKey].tweet, tweetKey)
  }

  /** Over-long text fails with `CommentTooLong` once the accounts are accepted, and exactly then. */
  lemma AddCommentTooLong(rt: Runtime, s: Store, signer: Pubkey, commentKey: Pubkey, tweetKey: Pubkey, content: Bytes)
    requires AddCommentAccountsValid(rt, s, signer, commentKey, tweetKey, content)
    ensures AddCommentStep(rt, s, signer, commentKey, tweetKey, content) == Err(CommentTooLong)
            <==> |content| > COMMENT_LENGTH
  {
  }

  /** The same author posting the same text on the same tweet again finds the address occupied. */
  lemma AddCommentTwiceFails(rt: Runtime, s: Store, signer: Pubkey, commentKey: Pubkey, tweetKey: Pubkey, content: Bytes)
    requires AddCommentStep(rt, s, signer, commentKey, tweetKey, content).Ok?
    ensures var s1 := AddCommentStep(rt, s, signer, commentKey, tweetKey, content).value;
            AddCommentStep(rt, s1, signer, commentKey, tweetKey, content) == Err(AccountAlreadyInUse)
  {
  }

  /**
   * In a consistent store where the signer already has a comment on the tweet whose text
   * hashes like `content`, commenting `content` again fails whatever address it names.
   */
  lemma ExistingCommentBlocksAdd(rt: Runtime, s: Store, signer: Pubkey, existing: Pubkey, commentKey: Pubkey,
                                 tweetKey: Pubkey, content: Bytes)
    requires Consistent(rt, s)
    requires existing in s && s[existing].CommentAccount? && CommentLaidOut(s[existing].comment)
    requires s[existing].comment.commentAuthor == signer && s[existing].comment.parentTweet == tweetKey
    requires rt.hash(CommentText(s[existing].comment)) == rt.hash(content)
    ensures AddCommentStep(rt, s, signer, commentKey, tweetKey, content).Err?
    ensures commentKey == existing && HasTweet(s, tweetKey) ==> AddCommentStep(rt, s, signer, commentKey, tweetKey, content) == Err(AccountAlreadyInUse)
  {
  }

  /**
   * Comments by one author on one tweet with texts of different hashes live at
   * different addresses, so neither blocks the other.
   */
  lemma DistinctTextsDistinctAddresses(rt: Runtime, s: Store, signer: Pubkey, k1: Pubkey, k2: Pubkey, tweetKey: Pubkey, a: Bytes, b: Bytes)
    requires AddCommentStep(rt, s, signer, k1, tweetKey, a).Ok?
    requires rt.hash(a) != rt.hash(b)
    requires AddCommentAccountsValid(rt, s, signer, k2, tweetKey, b) && |b| <= COMMENT_LENGTH
    ensures k1 != k2
    ensures AddCommentStep(rt, AddCommentStep(rt, s, signer, k1, tweetKey, a).value, signer, k2, tweetKey, b).Ok?
  {
  }

  /** `add_comment` keeps the store invariant; the comment it writes is at home by construction. */
  lemma AddCommentPreserves(rt: Runtime, s: Store, signer: Pubkey, commentKey: Pubkey, tweetKey: Pubkey, content: Bytes)
    requires Consistent(rt, s)
    requires AddCommentStep(rt, s, signer, commentKey, tweetKey, content).Ok?
    ensures Consistent(rt, AddCommentStep(rt, s, signer, commentKey, tweetKey, content).value)
  {
    var s1 := AddCommentStep(rt, s, signer, commentKey, tweetKey, content).value;
    forall t, kind | true ensures ReactionsOf(s1, t, kind) == ReactionsOf(s, t, kind) {
    }
    forall k | k in s1 && s1[k].ReactionAccount? ensures ReactionAtHome(rt, s1, k) {
      assert ReactionAtHome(rt, s, k);
    }
    forall k | k in s1 && s1[k].CommentAccount? ensures CommentAtHome(rt, s1, k) {
      if k != commentKey {
        assert CommentAtHome(rt, s, k);
      }
    }
  }

  /** The instruction as it runs against the ledger: all of its writes on success, none on failure. */
  method AddComment(ledger: Ledger, signer: Pubkey, commentKey: Pubkey, tweetKey: Pubkey, content: Bytes)
    returns (r: Outcome<Error>)
    requires ledger.Valid()
    modifies ledger
    ensures var step := AddCommentStep(ledger.rt, old(ledger.accounts), signer, commentKey, tweetKey, content);
            r == Report(step) && ledger.accounts == Commit(old(ledger.accounts), step)
    ensures ledger.Valid()
  {
    ghost var before := ledger.accounts;
    // deserialize `tweet`
    if tweetKey !in ledger.accounts {
      return Fail(AccountNotInitialized);
    }
    if !ledger.accounts[tweetKey].TweetAccount? {
      return Fail(AccountDiscriminatorMismatch);
    }
    var tweet := ledger.accounts[tweetKey].tweet;
    // init `comment` at [COMMENT_SEED, author, hash(content), tweet] with the canonical bump
    var seeds := CommentSeeds(signer, ledger.rt.hash(content), tweetKey);
    var bump := ledger.rt.canonicalBump(seeds);
    if commentKey != Pda(seeds, bump) {
      return Fail(ConstraintSeeds);
    }
    if commentKey in ledger.accounts {
      return Fail(AccountAlreadyInUse);
    }
    // `seeds = [topic[..topic_length], TWEET_SEED, tweet_author], bump = tweet.bump` on `tweet`
    if tweet.topicLength > |tweet.topic| {
      return Fail(SliceIndexPanic);
    }
    if tweetKey != Pda(TweetSeeds(tweet.topic[..tweet.topicLength], tweet.tweetAuthor), tweet.bump) {
      return Fail(ConstraintSeeds);
    }
    // handler body
    if |content| > COMMENT_LENGTH {
      return Fail(CommentTooLong);
    }
    var data := PadContent(content);
    var comment := Comment(signer, tweetKey, data, |content|, bump);
    ledger.accounts := ledger.accounts[commentKey := CommentAccount(comment)];
    r := Pass;
    AddCommentPreserves(ledger.rt, before, signer, commentKey, tweetKey, content);
  }
}
