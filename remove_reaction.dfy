/**
 * `remove_reaction`: the signer's reaction must sit at the address derived from the
 * signer and the tweet with its stored bump; the tweet's counter for the stored kind
 * is lowered and the reaction account is closed.
 */
module TwitterRemoveReaction {
  import opened Solana
  import opened TwitterState
  import TwitterAddReaction

  /** `checked_sub(1).ok_or(MinLikesReached)` on the counter `kind` selects. */
  function RemoveFromCounter(t: Tweet, kind: ReactionType): (r: Result<Tweet, Error>)
    ensures r.Err? <==> Count(t, kind) == 0
    ensures r.Err? ==> r.error == MinLikesReached
    ensures r.Ok? ==>
      && Count(r.value, kind) == Count(t, kind) - 1
      && Count(r.value, Other(kind)) == Count(t, Other(kind))
      && r.value.(likes := t.likes, dislikes := t.dislikes) == t
  {
    match kind
    case Like =>
      (match CheckedSub(t.likes, 1)
       case None => Err(MinLikesReached)
       case Some(n) => Ok(t.(likes := n)))
    case Dislike =>
      match CheckedSub(t.dislikes, 1)
      case None => Err(MinLikesReached)
      case Some(n) => Ok(t.(dislikes := n))
  }

  /** Lowering a counter undoes raising it. */
  lemma CounterRoundTrip(t: Tweet, kind: ReactionType)
    requires TwitterAddReaction.AddToCounter(t, kind).Ok?
    ensures RemoveFromCounter(TwitterAddReaction.AddToCounter(t, kind).value, kind) == Ok(t)
  {
  }

  /**
   * The instruction as a transition: deserialize `tweet_reaction` and `tweet`, check
   * both accounts' seeds, lower the counter of the stored kind and close the reaction.
   */
  function RemoveReactionStep(rt: Runtime, s: Store, signer: Pubkey, reactionKey: Pubkey, tweetKey: Pubkey)
    : (r: Result<Store, Error>)
    ensures r.Ok? <==>
      && reactionKey in s && s[reactionKey].ReactionAccount?
      && HasTweet(s, tweetKey)
      && reactionKey == Pda(ReactionSeeds(signer, tweetKey), s[reactionKey].reaction.bump)
      && TweetKeyMatches(s[tweetKey].tweet, tweetKey)
      && Count(s[tweetKey].tweet, s[reactionKey].reaction.reaction) > 0
    ensures r.Ok? ==>
      var t := s[tweetKey].tweet;
      var kind := s[reactionKey].reaction.reaction;
      && r.value.Keys == s.Keys - {reactionKey}
      && r.value[tweetKey].TweetAccount?
      && Count(r.value[tweetKey].tweet, kind) == Count(t, kind) - 1
      && Count(r.value[tweetKey].tweet, Other(kind)) == Count(t, Other(kind))
      && r.value[tweetKey].tweet.(likes := t.likes, dislikes := t.dislikes) == t
      && forall k :: k in s && k != reactionKey && k != tweetKey ==> r.value[k] == s[k]
  {
    match LoadReaction(s, reactionKey)
    case Err(e) => Err(e)
    case Ok(reaction) =>
      match LoadTweet(s, tweetKey)
      case Err(e) => Err(e)
      case Ok(tweet) =>
        if reactionKey != Pda(ReactionSeeds(signer, tweetKey), reaction.bump) then Err(ConstraintSeeds)
        else match CheckTweetKey(tweet, tweetKey)
          case Fail(e) => Err(e)
          case Pass =>
            match RemoveFromCounter(tweet, reaction.reaction)
            case Err(e) => Err(e)
            case Ok(counted) => Ok((s - {reactionKey})[tweetKey := TweetAccount(counted)])
  }

  /** Without a reaction at the derived address there is nothing to remove. */
  lemma RemoveWithoutReactionFails(rt: Runtime, s: Store, signer: Pubkey, reactionKey: Pubkey, tweetKey: Pubkey)
    requires reactionKey !in s
    ensures RemoveReactionStep(rt, s, signer, reactionKey, tweetKey) == Err(AccountNotInitialized)
  {
  }

  /**
   * In a consistent store a signer can only remove their own reaction to the tweet
   * named: its stored author is the signer and its stored tweet is `tweetKey`.
   */
  lemma RemoveOnlyOwnReaction(rt: Runtime, s: Store, signer: Pubkey, reactionKey: Pubkey, tweetKey: Pubkey)
    requires Consistent(rt, s)
    requires RemoveReactionStep(rt, s, signer, reactionKey, tweetKey).Ok?
    ensures s[reactionKey].reaction.reactionAuthor == signer
    ensures s[reactionKey].reaction.parentTweet == tweetKey
  {
    assert ReactionAtHome(rt, s, reactionKey);
  }

  /**
   * In a consistent store `MinLikesReached` is never raised: a reaction that passes the
   * seed checks is one of those its tweet's counter counts.
   */
  lemma RemoveNeverUnderflows(rt: Runtime, s: Store, signer: Pubkey, reactionKey: Pubkey, tweetKey: Pubkey)
    requires Consistent(rt, s)
    ensures RemoveReactionStep(rt, s, signer, reactionKey, tweetKey) != Err(MinLikesReached)
  {
    if && reactionKey in s && s[reactionKey].ReactionAccount? && HasTweet(s, tweetKey)
       && reactionKey == Pda(ReactionSeeds(signer, tweetKey), s[reactionKey].reaction.bump)
    {
      var kind := s[reactionKey].reaction.reaction;
      assert ReactionAtHome(rt, s, reactionKey);
      assert reactionKey in ReactionsOf(s, tweetKey, kind);
      assert Count(s[tweetKey].tweet, kind) == |ReactionsOf(s, tweetKey, kind)| by {
        assert kind == Like || kind == Dislike;
      }
    }
  }

  /** Adding a reaction and removing it again gives back exactly the store before. */
  lemma AddThenRemoveRestores(rt: Runtime, s: Store, signer: Pubkey, reactionKey: Pubkey, tweetKey: Pubkey, kind: ReactionType)
    requires TwitterAddReaction.AddReactionStep(rt, s, signer, reactionKey, tweetKey, kind).Ok?
    ensures var s1 := TwitterAddReaction.AddReactionStep(rt, s, signer, reactionKey, tweetKey, kind).value;
            RemoveReactionStep(rt, s1, signer, reactionKey, tweetKey) == Ok(s)
  {
    var s1 := TwitterAddReaction.AddReactionStep(rt, s, signer, reactionKey, tweetKey, kind).value;
    var t := s[tweetKey].tweet;
    assert s1[tweetKey].tweet == TwitterAddReaction.AddToCounter(t, kind).value;
    CounterRoundTrip(t, kind);
    var s2 := RemoveReactionStep(rt, s1, signer, reactionKey, tweetKey).value;
    assert s2 == s by {
      assert s2.Keys == s.Keys;
      forall k | k in s ensures s2[k] == s[k] {
        if k == tweetKey {
          assert s2[k] == TweetAccount(t);
        }
      }
    }
  }

  /** Closing the reaction at `rk`, of kind `kind` under `tweetKey`, takes `rk` out of exactly one reaction set. */
  lemma RemoveReactionSets(s: Store, s1: Store, tweetKey: Pubkey, counted: Tweet, rk: Pubkey)
    requires HasTweet(s, tweetKey) && rk in s && s[rk].ReactionAccount? && s[rk].reaction.parentTweet == tweetKey
    requires s1 == (s - {rk})[tweetKey := TweetAccount(counted)]
    ensures forall t, kind :: ReactionsOf(s1, t, kind)
              == if t == tweetKey && kind == s[rk].reaction.reaction then ReactionsOf(s, t, kind) - {rk} else ReactionsOf(s, t, kind)
  {
    forall t, kind
      ensures ReactionsOf(s1, t, kind)
              == if t == tweetKey && kind == s[rk].reaction.reaction then ReactionsOf(s, t, kind) - {rk} else ReactionsOf(s, t, kind)
    {
      if t == tweetKey && kind == s[rk].reaction.reaction {
        assert ReactionsOf(s1, t, kind) == ReactionsOf(s, t, kind) - {rk};
      } else {
        assert ReactionsOf(s1, t, kind) == ReactionsOf(s, t, kind);
      }
    }
  }

  /** `remove_reaction` keeps the store invariant: the counter and the reaction set shrink together. */
  lemma RemoveReactionPreserves(rt: Runtime, s: Store, signer: Pubkey, reactionKey: Pubkey, tweetKey: Pubkey)
    requires Consistent(rt, s)
    requires RemoveReactionStep(rt, s, signer, reactionKey, tweetKey).Ok?
    ensures Consistent(rt, RemoveReactionStep(rt, s, signer, reactionKey, tweetKey).value)
  {
    var s1 := RemoveReactionStep(rt, s, signer, reactionKey, tweetKey).value;
    var kind := s[reactionKey].reaction.reaction;
    var counted := RemoveFromCounter(s[tweetKey].tweet, kind).value;
    assert s1 == (s - {reactionKey})[tweetKey := TweetAccount(counted)];
    RemoveOnlyOwnReaction(rt, s, signer, reactionKey, tweetKey);
    RemoveReactionSets(s, s1, tweetKey, counted, reactionKey);
    forall k | k in s1 && s1[k].ReactionAccount? ensures ReactionAtHome(rt, s1, k) {
      assert ReactionAtHome(rt, s, k);
    }
    forall k | k in s1 && s1[k].CommentAccount? ensures CommentAtHome(rt, s1, k) {
      assert CommentAtHome(rt, s, k);
    }
    forall k | HasTweet(s1, k)
      ensures s1[k].tweet.likes == |ReactionsOf(s1, k, Like)| && s1[k].tweet.dislikes == |ReactionsOf(s1, k, Dislike)|
    {
      assert HasTweet(s, k);
      if k == tweetKey {
        assert reactionKey in ReactionsOf(s, k, kind);
        assert Count(s[k].tweet, kind) == |ReactionsOf(s, k, kind)| by {
          assert kind == Like || kind == Dislike;
        }
        assert Count(s[k].tweet, Other(kind)) == |ReactionsOf(s, k, Other(kind))| by {
          assert kind == Like || kind == Dislike;
        }
        assert Count(s1[k].tweet, kind) == |ReactionsOf(s1, k, kind)|;
        assert Count(s1[k].tweet, Other(kind)) == |ReactionsOf(s1, k, Other(kind))|;
        assert kind == Like || kind == Dislike;
      }
    }
  }

  /** The instruction as it runs against the ledger: all of its writes on success, none on failure. */
  method RemoveReaction(ledger: Ledger, signer: Pubkey, reactionKey: Pubkey, tweetKey: Pubkey)
    returns (r: Outcome<Error>)
    requires ledger.Valid()
    modifies ledger
    ensures var step := RemoveReactionStep(ledger.rt, old(ledger.accounts), signer, reactionKey, tweetKey);
            r == Report(step) && ledger.accounts == Commit(old(ledger.accounts), step)
    ensures ledger.Valid()
  {
    ghost var before := ledger.accounts;
    // deserialize `tweet_reaction` and `tweet`
    if reactionKey !in ledger.accounts {
      return Fail(AccountNotInitialized);
    }
    if !ledger.accounts[reactionKey].ReactionAccount? {
      return Fail(AccountDiscriminatorMismatch);
    }
    var reaction := ledger.accounts[reactionKey].reaction;
    if tweetKey !in ledger.accounts {
      return Fail(AccountNotInitialized);
    }
    if !ledger.accounts[tweetKey].TweetAccount? {
      return Fail(AccountDiscriminatorMismatch);
    }
    var tweet := ledger.accounts[tweetKey].tweet;
    // `seeds = [TWEET_REACTION_SEED, author, tweet], bump = tweet_reaction.bump`
    if reactionKey != Pda(ReactionSeeds(signer, tweetKey), reaction.bump) {
      return Fail(ConstraintSeeds);
    }
    // `seeds = [topic[..topic_length], TWEET_SEED, tweet_author], bump = tweet.bump` on `tweet`
    if tweet.topicLength > |tweet.topic| {
      return Fail(SliceIndexPanic);
    }
    if tweetKey != Pda(TweetSeeds(tweet.topic[..tweet.topicLength], tweet.tweetAuthor), tweet.bump) {
      return Fail(ConstraintSeeds);
    }
    // handler body: lower the counter the stored kind selects
    match reaction.reaction {
      case Like =>
        var likes := CheckedSub(tweet.likes, 1);
        if likes.None? {
          return Fail(MinLikesReached);
        }
        tweet := tweet.(likes := likes.value);
      case Dislike =>
        var dislikes := CheckedSub(tweet.dislikes, 1);
        if dislikes.None? {
          return Fail(MinLikesReached);
        }
        tweet := tweet.(dislikes := dislikes.value);
    }
    // exit: `close = reaction_author` removes the reaction; the tweet is written back
    ledger.accounts := (ledger.accounts - {reactionKey})[tweetKey := TweetAccount(tweet)];
    r := Pass;
    RemoveReactionPreserves(ledger.rt, before, signer, reactionKey, tweetKey);
  }
}
