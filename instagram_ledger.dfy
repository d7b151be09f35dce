/**
 * The instagram-sol program as it runs: a ledger object whose account store each
 * instruction either leaves untouched (on any error) or updates with all of the
 * instruction's writes. Each handler loads copies of its accounts, validates them in
 * Anchor's order, changes the copies field by field and writes them back at exit.
 */
module InstagramLedger {
  import opened Solana
  import opened InstagramSol
  import InstagramInvariants

  class Ledger {
    var accounts: Store

    /** The store invariant every instruction keeps. */
    ghost predicate Valid()
      reads this
    {
      InstagramInvariants.Consistent(accounts)
    }

    /** Like accounts and `likes` counters agree; holds until a liked post is deleted. */
    ghost predicate LikesAccounted()
      reads this
    {
      InstagramInvariants.LikesAccounted(accounts)
    }

    constructor ()
      ensures accounts == map[]
      ensures Valid() && LikesAccounted()
    {
      accounts := map[];
    }

    method InitializeUser(signer: Pubkey, profileKey: Pubkey, username: Bytes) returns (r: Outcome<Error>)
      requires Valid()
      modifies this
      ensures var step := InitializeUserStep(old(accounts), signer, profileKey, username);
              r == Report(step) && accounts == Commit(old(accounts), step)
      ensures Valid()
      ensures old(LikesAccounted()) ==> LikesAccounted()
    {
      ghost var before := accounts;
      // init: the address must be the one derived from the seeds, and free
      if profileKey != ProfileAddr(signer) {
        return Fail(ConstraintSeeds);
      }
      if profileKey in accounts {
        return Fail(AccountAlreadyInUse);
      }
      var profile := UserProfile(signer, username, 0);
      // exit: the profile must serialize into its reserved space
      if ProfileSize(profile) > PROFILE_SPACE {
        return Fail(AccountDidNotSerialize);
      }
      accounts := accounts[profileKey := ProfileAccount(profile)];
      r := Pass;
      InstagramInvariants.InitializeUserPreserves(before, signer, profileKey, username);
    }

    method CreatePost(signer: Pubkey, postKey: Pubkey, profileKey: Pubkey,
                      contentUri: Bytes, description: Bytes, now: i64) returns (r: Outcome<Error>)
      requires Valid()
      modifies this
      ensures var step := CreatePostStep(old(accounts), signer, postKey, profileKey, contentUri, description, now);
              r == Report(step) && accounts == Commit(old(accounts), step)
      ensures Valid()
      ensures old(LikesAccounted()) ==> LikesAccounted()
    {
      ghost var before := accounts;
      // deserialize `user_profile`
      if profileKey !in accounts {
        return Fail(AccountNotInitialized);
      }
      if !accounts[profileKey].ProfileAccount? {
        return Fail(AccountDiscriminatorMismatch);
      }
      var profile := accounts[profileKey].profile;
      // init `post` at ["post", authority, post_count]
      if postKey != PostAddr(signer, profile.postCount) {
        return Fail(ConstraintSeeds);
      }
      if postKey in accounts {
        return Fail(AccountAlreadyInUse);
      }
      // `has_one = authority` on `user_profile`
      if profile.authority != signer {
        return Fail(ConstraintHasOne);
      }
      // handler body
      if |contentUri| > MAX_CONTENT_URI {
        return Fail(ContentUriTooLong);
      }
      if |description| > MAX_DESCRIPTION {
        return Fail(DescriptionTooLong);
      }
      var post := Post(signer, contentUri, description, 0, now);
      var count := CheckedAdd(profile.postCount, 1);
      if count.None? {
        return Fail(ArithmeticPanic);
      }
      profile := profile.(postCount := count.value);
      // exit: the post must serialize into its reserved space
      if PostSize(post) > POST_SPACE {
        return Fail(AccountDidNotSerialize);
      }
      accounts := accounts[postKey := PostAccount(post)][profileKey := ProfileAccount(profile)];
      r := Pass;
      InstagramInvariants.CreatePostPreserves(before, signer, postKey, profileKey, contentUri, description, now);
    }

    method DeletePost(signer: Pubkey, postKey: Pubkey, profileKey: Pubkey) returns (r: Outcome<Error>)
      requires Valid()
      modifies this
      ensures var step := DeletePostStep(old(accounts), signer, postKey, profileKey);
              r == Report(step) && accounts == Commit(old(accounts), step)
      ensures Valid()
      ensures old(InstagramInvariants.LikesMatch(accounts)) ==> InstagramInvariants.LikesMatch(accounts)
    {
      ghost var before := accounts;
      // deserialize `post` and `user_profile`
      if postKey !in accounts {
        return Fail(AccountNotInitialized);
      }
      if !accounts[postKey].PostAccount? {
        return Fail(AccountDiscriminatorMismatch);
      }
      if profileKey !in accounts {
        return Fail(AccountNotInitialized);
      }
      if !accounts[profileKey].ProfileAccount? {
        return Fail(AccountDiscriminatorMismatch);
      }
      var post := accounts[postKey].post;
      var profile := accounts[profileKey].profile;
      // `has_one = authority` on both accounts
      if post.authority != signer {
        return Fail(ConstraintHasOne);
      }
      if profile.authority != signer {
        return Fail(ConstraintHasOne);
      }
      // handler body
      var count := CheckedSub(profile.postCount, 1);
      if count.None? {
        return Fail(ArithmeticPanic);
      }
      profile := profile.(postCount := count.value);
      // exit: `close = authority` removes the post; the profile is written back
      accounts := (accounts - {postKey})[profileKey := ProfileAccount(profile)];
      r := Pass;
      InstagramInvariants.DeletePostPreserves(before, signer, postKey, profileKey);
    }

    method LikePost(signer: Pubkey, likeKey: Pubkey, postKey: Pubkey) returns (r: Outcome<Error>)
      requires Valid()
      modifies this
      ensures var step := LikePostStep(old(accounts), signer, likeKey, postKey);
              r == Report(step) && accounts == Commit(old(accounts), step)
      ensures Valid()
      ensures old(LikesAccounted()) ==> LikesAccounted()
    {
      ghost var before := accounts;
      // deserialize `post`
      if postKey !in accounts {
        return Fail(AccountNotInitialized);
      }
      if !accounts[postKey].PostAccount? {
        return Fail(AccountDiscriminatorMismatch);
      }
      var post := accounts[postKey].post;
      // init `like_account` at ["like", post, authority]
      if likeKey != LikeAddr(postKey, signer) {
        return Fail(ConstraintSeeds);
      }
      if likeKey in accounts {
        return Fail(AccountAlreadyInUse);
      }
      // handler body
      var likes := CheckedAdd(post.likes, 1);
      if likes.None? {
        return Fail(ArithmeticPanic);
      }
      post := post.(likes := likes.value);
      accounts := accounts[likeKey := LikeAccount][postKey := PostAccount(post)];
      r := Pass;
      InstagramInvariants.LikePostPreserves(before, signer, likeKey, postKey);
    }

    method UnlikePost(signer: Pubkey, likeKey: Pubkey, postKey: Pubkey) returns (r: Outcome<Error>)
      requires Valid()
      modifies this
      ensures var step := UnlikePostStep(old(accounts), signer, likeKey, postKey);
              r == Report(step) && accounts == Commit(old(accounts), step)
      ensures Valid()
      ensures old(LikesAccounted()) ==> LikesAccounted()
    {
      ghost var before := accounts;
      // deserialize `like_account` and `post`
      if likeKey !in accounts {
        return Fail(AccountNotInitialized);
      }
      if !accounts[likeKey].LikeAccount? {
        return Fail(AccountDiscriminatorMismatch);
      }
      if postKey !in accounts {
        return Fail(AccountNotInitialized);
      }
      if !accounts[postKey].PostAccount? {
        return Fail(AccountDiscriminatorMismatch);
      }
      var post := accounts[postKey].post;
      // `seeds = ["like", post, authority]` on `like_account`
      if likeKey != LikeAddr(postKey, signer) {
        return Fail(ConstraintSeeds);
      }
      // handler body
      var likes := CheckedSub(post.likes, 1);
      if likes.None? {
        return Fail(ArithmeticPanic);
      }
      post := post.(likes := likes.value);
      // exit: `close = authority` removes the like; the post is written back
      accounts := (accounts - {likeKey})[postKey := PostAccount(post)];
      r := Pass;
      InstagramInvariants.UnlikePostPreserves(before, signer, likeKey, postKey);
    }
  }
}
