/**
 * `add_reaction`: `init` the signer's reaction to a tweet at the address derived from
 * the signer and the tweet, and raise the tweet's counter for the reaction's kind.
 * Because the address does not depend on the kind, an author reacts to a tweet at most
 * once at a time.
 */
module TwitterAddReaction {
  import opened Solana
  import opened TwitterState

  /** `checked_add(1).ok_or(MaxLikesReached)` on the counter `kind` selects. */
  function AddToCounter(t: Tweet, kind: ReactionType): (r: Result<Tweet, Error>)
    ensures r.Err? <==> Count(t, kind) == U64_MAX
    ensures r.Err? ==> r.error == MaxLikesReached
    ensures r.Ok? ==>
      && Count(r.value, kind) == Count(t, kind) + 1
      && Count(r.value, Other(kind)) == Count(t, Other(kind))
      && r.value.(likes := t.likes, dislikes := t.dislikes) == t
  {
    match kind
    case Like =>
      (match CheckedAdd(t.likes, 1)
       case None => Err(MaxLikesReached)
       case Some(n) => Ok(t.(likes := n)))
    case Dislike =>
      match CheckedAdd(t.dislikes, 1)
      case None => Err(MaxLikesReached)
      case Some(n) => Ok(t.(dislikes := n))
  }

  /**
   * The instruction as a transition: deserialize `tweet`, derive and `init`
   * `tweet_reaction`, check `tweet`'s own seeds, then raise the counter and fill in the
   * reaction.
   */
  function AddReactionStep(rt: Runtime, s: Store, signer: Pubkey, reactionKey: Pubkey, tweetKey: Pubkey, kind: ReactionType)
    : (r: Result<Store, Error>)
    ensures r.Ok? <==>
      && HasTweet(s, tweetKey)
      && reactionKey == FindProgramAddress(rt, ReactionSeeds(signer, tweetKey))
      && reactionKey !in s
      && TweetKeyMatches(s[tweetKey].tweet, tweetKey)
      && Count(s[tweetKey].tweet, kind) < U64_MAX
    ensures r.Ok? ==>
      var t := s[tweetKey].tweet;
      && r.value.Keys == s.Keys + {reactionKey}
      && r.value[reactionKey]
         == ReactionAccount(Reaction(signer, tweetKey, kind, rt.canonicalBump(ReactionSeeds(signer, tweetKey))))
      && r.value[tweetKey].TweetAccount?
      && Count(r.value[tweetKey].tweet, kind) == Count(t, kind) + 1
      && Count(r.value[tweetKey].tweet, Other(kind)) == Count(t, Other(kind))
      && r.value[tweetKey].tweet.(likes := t.likes, dislikes := t.dislikes) == t
      && forall k :: k in s && k != tweetKey ==> r.value[k] == s[k]
  {
    match LoadTweet(s, tweetKey)
    case Err(e) => Err(e)
    case Ok(tweet) =>
      var seeds := ReactionSeeds(signer, tweetKey);
      if reactionKey != FindProgramAddress(rt, seeds) then Err(ConstraintSeeds)
      else if reactionKey in s then Err(AccountAlreadyInUse)
      else match CheckTweetKey(tweet, tweetKey)
        case Fail(e) => Err(e)
        case Pass =>
          match AddToCounter(tweet, kind)
          case Err(e) => Err(e)
          case Ok(counted) =>
            Ok(s[tweetKey := TweetAccount(counted)]
                [reactionKey := ReactionAccount(Reaction(signer, tweetKey, kind, rt.canonicalBump(seeds)))])
  }

  /** The accounts `add_reaction` accepts before its body runs. */
  ghost predicate AddReactionAccountsValid(rt: Runtime, s: Store, signer: Pubkey, reactionKey: Pubkey, tweetKey: Pubkey)
  {
    && HasTweet(s, tweetKey)
    && reactionKey == FindProgramAddress(rt, ReactionSeeds(signer, tweetKey))
    && reactionKey !in s
    && TweetKeyMatches(s[tweetKey].tweet, tweetKey)
  }

  /** Once the accounts are accepted, the instruction fails exactly on overflow, with `MaxLikesReached`. */
  lemma AddReactionOverflow(rt: Runtime, s: Store, signer: Pubkey, reactionKey: Pubkey, tweetKey: Pubkey, kind: ReactionType)
    requires AddReactionAccountsValid(rt, s, signer, reactionKey, tweetKey)
    ensures AddReactionStep(rt, s, signer, reactionKey, tweetKey, kind).Err?
            <==> Count(s[tweetKey].tweet, kind) == U64_MAX
    ensures AddReactionStep(rt, s, signer, reactionKey, tweetKey, kind).Err? ==>
            AddReactionStep(rt, s, signer, reactionKey, tweetKey, kind).error == MaxLikesReached
  {
  }

  /**
   * After one reaction, a second by the same author on the same tweet fails whatever
   * its kind and whatever address it names; at the derived address it is `AccountAlreadyInUse`.
   */
  lemma ReactTwiceFails(rt: Runtime, s: Store, signer: Pubkey, reactionKey: Pubkey, tweetKey: Pubkey,
                        kind: ReactionType, again: Pubkey, kind2: ReactionType)
    requires AddReactionStep(rt, s, signer, reactionKey, tweetKey, kind).Ok?
    ensures var s1 := AddReactionStep(rt, s, signer, reactionKey, tweetKey, kind).value;
            && AddReactionStep(rt, s1, signer, again, tweetKey, kind2).Err?
            && (again == reactionKey ==> AddReactionStep(rt, s1, signer, again, tweetKey, kind2) == Err(AccountAlreadyInUse))
  {
  }

  /**
   * In a consistent store where the signer already holds a reaction to the tweet, of
   * either kind, another reaction by the signer fails whatever kind and address it names.
   */
  lemma ExistingReactionBlocksAdd(rt: Runtime, s: Store, signer: Pubkey, existing: Pubkey, reactionKey: Pubkey,
                                  tweetKey: Pubkey, kind: ReactionType)
    requires Consistent(rt, s)
    requires existing in s && s[existing].ReactionAccount?
    requires s[existing].reaction.reactionAuthor == signer && s[existing].reaction.parentTweet == tweetKey
    ensures AddReactionStep(rt, s, signer, reactionKey, tweetKey, kind).Err?
    ensures reactionKey == existing ==> AddReactionStep(rt, s, signer, reactionKey, tweetKey, kind) == Err(AccountAlreadyInUse)
  {
  }

  /** Adding reaction `r` at fresh key `rk` under tweet `tweetKey` adds `rk` to exactly one reaction set. */
  lemma AddReactionSets(s: Store, s1: Store, tweetKey: Pubkey, counted: Tweet, rk: Pubkey, r: Reaction)
    requires HasTweet(s, tweetKey) && rk !in s && r.parentTweet == tweetKey
    requires s1 == s[tweetKey := TweetAccount(counted)][rk := ReactionAccount(r)]
    ensures forall t, kind :: ReactionsOf(s1, t, kind)
              == if t == tweetKey && kind == r.reaction then ReactionsOf(s, t, kind) + {rk} else ReactionsOf(s, t, kind)
  {
    forall t, kind
      ensures ReactionsOf(s1, t, kind)
              == if t == tweetKey && kind == r.reaction then ReactionsOf(s, t, kind) + {rk} else ReactionsOf(s, t, kind)
    {
      if t == tweetKey && kind == r.reaction {
        assert ReactionsOf(s1, t, kind) == ReactionsOf(s, t, kind) + {rk};
      } else {
        assert ReactionsOf(s1, t, kind) == ReactionsOf(s, t, kind);
      }
    }
  }

  /** `add_reaction` keeps the store invariant: the tweet's counter and its reaction set grow together. */
  lemma AddReactionPreserves(rt: Runtime, s: Store, signer: Pubkey, reactionKey: Pubkey, tweetKey: Pubkey, kind: ReactionType)
    requires Consistent(rt, s)
    requires AddReactionStep(rt, s, signer, reactionKey, tweetKey, kind).Ok?
    ensures Consistent(rt, AddReactionStep(rt, s, signer, reactionKey, tweetKey, kind).value)
  {
    var s1 := AddReactionStep(rt, s, signer, reactionKey, tweetKey, kind).value;
    var counted := AddToCounter(s[tweetKey].tweet, kind).value;
    var r := Reaction(signer, tweetKey, kind, rt.canonicalBump(ReactionSeeds(signer, tweetKey)));
    assert s1 == s[tweetKey := TweetAccount(counted)][reactionKey := ReactionAccount(r)];
    AddReactionSets(s, s1, tweetKey, counted, reactionKey, r);
    forall k | k in s1 && s1[k].ReactionAccount? ensures ReactionAtHome(rt, s1, k) {
      if k != reactionKey {
        assert ReactionAtHome(rt, s, k);
      }
    }
    forall k | k in s1 && s1[k].CommentAccount? ensures CommentAtHome(rt, s1, k) {
      assert CommentAtHome(rt, s, k);
    }
    forall k | HasTweet(s1, k)
      ensures s1[k].tweet.likes == |ReactionsOf(s1, k, Like)| && s1[k].tweet.dislikes == |ReactionsOf(s1, k, Dislike)|
    {
      assert HasTweet(s, k);
      if k == tweetKey {
        assert reactionKey !in ReactionsOf(s, k, kind);
        assert Count(s1[k].tweet, kind) == |ReactionsOf(s1, k, kind)|;
        assert Count(s1[k].tweet, Other(kind)) == |ReactionsOf(s1, k, Other(kind))|;
        assert kind == Like || kind == Dislike;
      }
    }
  }

  /** The instruction as it runs against the ledger: all of its writes on success, none on failure. */
  method AddReaction(ledger: Ledger, signer: Pubkey, reactionKey: Pubkey, tweetKey: Pubkey, kind: ReactionType)
    returns (r: Outcome<Error>)
    requires ledger.Valid()
    modifies ledger
    ensures var step := AddReactionStep(ledger.rt, old(ledger.accounts), signer, reactionKey, tweetKey, kind);
            r == Report(step) && ledger.accounts == Commit(old(ledger.accounts), step)
    ensures ledger.Valid()
  {
    ghost var before := ledger.accounts;
    // deserialize `tweet`
    if tweetKey !in ledger.accounts {
      return Fail(AccountNotInitialized);
    }
    if !ledger.accounts[tweetKey].TweetAccount? {
      return Fail(AccountDiscriminatorMismatch);
    }
    var tweet := ledger.accounts[tweetKey].tweet;
    // init `tweet_reaction` at [TWEET_REACTION_SEED, author, tweet] with the canonical bump
    var seeds := ReactionSeeds(signer, tweetKey);
    var bump := ledger.rt.canonicalBump(seeds);
    if reactionKey != Pda(seeds, bump) {
      return Fail(ConstraintSeeds);
    }
    if reactionKey in ledger.accounts {
      return Fail(AccountAlreadyInUse);
    }
    // `seeds = [topic[..topic_length], TWEET_SEED, tweet_author], bump = tweet.bump` on `tweet`
    if tweet.topicLength > |tweet.topic| {
      return Fail(SliceIndexPanic);
    }
    if tweetKey != Pda(TweetSeeds(tweet.topic[..tweet.topicLength], tweet.tweetAuthor), tweet.bump) {
      return Fail(ConstraintSeeds);
    }
    // handler body: raise the counter the kind selects
    match kind {
      case Like =>
        var likes := CheckedAdd(tweet.likes, 1);
        if likes.None? {
          return Fail(MaxLikesReached);
        }
        tweet := tweet.(likes := likes.value);
      case Dislike =>
        var dislikes := CheckedAdd(tweet.dislikes, 1);
        if dislikes.None? {
          return Fail(MaxLikesReached);
        }
        tweet := tweet.(dislikes := dislikes.value);
    }
    var reaction := Reaction(signer, tweetKey, kind, bump);
    // exit: both accounts are written back
    ledger.accounts := ledger.accounts[tweetKey := TweetAccount(tweet)][reactionKey := ReactionAccount(reaction)];
    r := Pass;
    AddReactionPreserves(ledger.rt, before, signer, reactionKey, tweetKey, kind);
  }
}
