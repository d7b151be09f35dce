/**
 * Properties of single instagram-sol handlers and of short sequences of them,
 * including the consequences of the code as written: the profile's 84-byte
 * reservation, the post's 756-byte reservation and the decrement in `delete_post`.
 */
module InstagramProperties {
  import opened Solana
  import opened Borsh
  import opened InstagramSol

  /** Post indices are seeded by their 8-byte little-endian form, which tells every two u64 apart. */
  lemma PostIndexSeedInjective(i: u64, j: u64)
    ensures Pow256(U64_SIZE) == U64_MAX + 1
    ensures LeBytes(i, U64_SIZE) == LeBytes(j, U64_SIZE) <==> i == j
  {
    Pow256Values();
    LeBytesInjective(i, j, U64_SIZE);
  }

  /**
   * The error the test expects for a 256-byte URI is custom program error 0x1771, the
   * one for an over-long username is 0xbbc, and no two errors share a number.
   */
  lemma ContentUriTooLongCode()
    ensures Code(ContentUriTooLong) == Some(0x1771)
    ensures Code(AccountDidNotSerialize) == Some(0xbbc)
    ensures forall e1, e2 :: Code(e1).Some? && Code(e1) == Code(e2) ==> e1 == e2
  {
  }

  /** A second `initialize_user` by the same signer finds the derived address occupied. */
  lemma InitializeUserOnce(s: Store, signer: Pubkey, profileKey: Pubkey, first: Bytes, second: Bytes)
    requires InitializeUserStep(s, signer, profileKey, first).Ok?
    ensures InitializeUserStep(InitializeUserStep(s, signer, profileKey, first).value, signer, ProfileAddr(signer), second)
            == Err(AccountAlreadyInUse)
  {
  }

  /**
   * A username that does not fit the 84-byte reservation fails at serialization,
   * never with `UsernameTooLong`, and the store keeps no profile for the signer.
   */
  lemma LongUsernameFailsToSerialize(s: Store, signer: Pubkey, username: Bytes)
    requires ProfileAddr(signer) !in s
    requires |username| > 32
    ensures InitializeUserStep(s, signer, ProfileAddr(signer), username) == Err(AccountDidNotSerialize)
  {
  }

  /** `UsernameTooLong` is declared but no handler raises it. */
  lemma UsernameTooLongNeverRaised(s: Store, signer: Pubkey, k1: Pubkey, k2: Pubkey, a: Bytes, b: Bytes, now: i64)
    ensures InitializeUserStep(s, signer, k1, a) != Err(UsernameTooLong)
    ensures CreatePostStep(s, signer, k1, k2, a, b, now) != Err(UsernameTooLong)
    ensures DeletePostStep(s, signer, k1, k2) != Err(UsernameTooLong)
    ensures LikePostStep(s, signer, k1, k2) != Err(UsernameTooLong)
    ensures UnlikePostStep(s, signer, k1, k2) != Err(UsernameTooLong)
  {
  }

  /** The account checks `create_post` passes before its body runs. */
  ghost predicate CreatePostAccountsValid(s: Store, signer: Pubkey, postKey: Pubkey, profileKey: Pubkey)
  {
    && HasProfile(s, profileKey)
    && s[profileKey].profile.authority == signer
    && postKey == PostAddr(signer, s[profileKey].profile.postCount)
    && postKey !in s
  }

  /** Once the accounts are valid, the URI length is checked before the description length. */
  lemma CreatePostLengthChecks(s: Store, signer: Pubkey, postKey: Pubkey, profileKey: Pubkey,
                               contentUri: Bytes, description: Bytes, now: i64)
    requires CreatePostAccountsValid(s, signer, postKey, profileKey)
    ensures |contentUri| > MAX_CONTENT_URI ==>
      CreatePostStep(s, signer, postKey, profileKey, contentUri, description, now) == Err(ContentUriTooLong)
    ensures |contentUri| <= MAX_CONTENT_URI && |description| > MAX_DESCRIPTION ==>
      CreatePostStep(s, signer, postKey, profileKey, contentUri, description, now) == Err(DescriptionTooLong)
  {
  }

  /**
   * A post at both declared limits passes the explicit length checks but does not
   * fit in 756 bytes, which leave no room for the two 4-byte string prefixes.
   */
  lemma FullSizePostDoesNotSerialize(s: Store, signer: Pubkey, postKey: Pubkey, profileKey: Pubkey,
                                     contentUri: Bytes, description: Bytes, now: i64)
    requires CreatePostAccountsValid(s, signer, postKey, profileKey)
    requires s[profileKey].profile.postCount < U64_MAX
    requires |contentUri| <= MAX_CONTENT_URI && |description| <= MAX_DESCRIPTION
    ensures CreatePostStep(s, signer, postKey, profileKey, contentUri, description, now).Err?
            <==> |contentUri| + |description| > POST_SPACE - 64
    ensures |contentUri| == MAX_CONTENT_URI && |description| == MAX_DESCRIPTION ==>
      CreatePostStep(s, signer, postKey, profileKey, contentUri, description, now) == Err(AccountDidNotSerialize)
  {
  }

  /** Creating a post and deleting it again gives back exactly the store before. */
  lemma CreateThenDeleteRestores(s: Store, signer: Pubkey, postKey: Pubkey, profileKey: Pubkey,
                                 contentUri: Bytes, description: Bytes, now: i64)
    requires CreatePostStep(s, signer, postKey, profileKey, contentUri, description, now).Ok?
    ensures var s1 := CreatePostStep(s, signer, postKey, profileKey, contentUri, description, now).value;
            && HasPost(s1, postKey)
            && DeletePostStep(s1, signer, postKey, profileKey) == Ok(s)
            && postKey !in s
  {
    var s1 := CreatePostStep(s, signer, postKey, profileKey, contentUri, description, now).value;
    var s2 := DeletePostStep(s1, signer, postKey, profileKey).value;
    assert s2 == s by {
      assert s2.Keys == s.Keys;
      forall k | k in s ensures s2[k] == s[k] {
        if k == profileKey {
          assert s2[k] == ProfileAccount(s[profileKey].profile);
        }
      }
    }
  }

  /** A like followed by an unlike from the same signer gives back exactly the store before. */
  lemma LikeThenUnlikeRestores(s: Store, signer: Pubkey, likeKey: Pubkey, postKey: Pubkey)
    requires LikePostStep(s, signer, likeKey, postKey).Ok?
    ensures var s1 := LikePostStep(s, signer, likeKey, postKey).value;
            && s1[postKey].post.likes == s[postKey].post.likes + 1
            && UnlikePostStep(s1, signer, likeKey, postKey) == Ok(s)
  {
    var s1 := LikePostStep(s, signer, likeKey, postKey).value;
    var s2 := UnlikePostStep(s1, signer, likeKey, postKey).value;
    assert s2 == s by {
      assert s2.Keys == s.Keys;
      forall k | k in s ensures s2[k] == s[k] {
        if k == postKey {
          assert s2[k] == PostAccount(s[postKey].post);
        }
      }
    }
  }

  /** A second like by the same signer on the same post fails whatever like address it names. */
  lemma LikeTwiceFails(s: Store, signer: Pubkey, likeKey: Pubkey, postKey: Pubkey, again: Pubkey)
    requires LikePostStep(s, signer, likeKey, postKey).Ok?
    ensures var s1 := LikePostStep(s, signer, likeKey, postKey).value;
            && LikePostStep(s1, signer, again, postKey).Err?
            && (again == likeKey ==> LikePostStep(s1, signer, again, postKey) == Err(AccountAlreadyInUse))
  {
  }

  /** Unliking a post the signer has not liked fails: there is no like account to load. */
  lemma UnlikeWithoutLikeFails(s: Store, signer: Pubkey, postKey: Pubkey)
    requires LikeAddr(postKey, signer) !in s
    ensures UnlikePostStep(s, signer, LikeAddr(postKey, signer), postKey) == Err(AccountNotInitialized)
  {
  }

  /**
   * With `delete_post` lowering `post_count`, deleting any post but the newest makes
   * the next derived post address one that is still occupied: after posts 0 and 1
   * and the deletion of post 0, every `create_post` for that profile fails.
   */
  lemma DeleteThenCreateCollides(w: Pubkey, contentUri: Bytes, description: Bytes, now: i64)
    ensures
      var r1 := InitializeUserStep(map[], w, ProfileAddr(w), []);
      && r1.Ok?
      && var r2 := CreatePostStep(r1.value, w, PostAddr(w, 0), ProfileAddr(w), [], [], now);
      && r2.Ok?
      && var r3 := CreatePostStep(r2.value, w, PostAddr(w, 1), ProfileAddr(w), [], [], now);
      && r3.Ok?
      && var r4 := DeletePostStep(r3.value, w, PostAddr(w, 0), ProfileAddr(w));
      && r4.Ok?
      && r4.value[ProfileAddr(w)].profile.postCount == 1
      && HasPost(r4.value, PostAddr(w, 1))
      && forall postKey :: CreatePostStep(r4.value, w, postKey, ProfileAddr(w), contentUri, description, now).Err?
  {
  }

  /**
   * `delete_post` leaves the likes of the deleted post behind. When the post index is
   * reused the new post starts at 0 likes while an old like still exists, so the
   * liker can neither like it again nor unlike it.
   */
  lemma DeletedPostLeavesLikes(w: Pubkey, u: Pubkey, now: i64)
    ensures
      var r1 := InitializeUserStep(map[], w, ProfileAddr(w), []);
      && r1.Ok?
      && var r2 := CreatePostStep(r1.value, w, PostAddr(w, 0), ProfileAddr(w), [], [], now);
      && r2.Ok?
      && var r3 := LikePostStep(r2.value, u, LikeAddr(PostAddr(w, 0), u), PostAddr(w, 0));
      && r3.Ok?
      && var r4 := DeletePostStep(r3.value, w, PostAddr(w, 0), ProfileAddr(w));
      && r4.Ok?
      && LikeAddr(PostAddr(w, 0), u) in r4.value
      && var r5 := CreatePostStep(r4.value, w, PostAddr(w, 0), ProfileAddr(w), [], [], now);
      && r5.Ok?
      && r5.value[PostAddr(w, 0)].post.likes == 0
      && LikePostStep(r5.value, u, LikeAddr(PostAddr(w, 0), u), PostAddr(w, 0)) == Err(AccountAlreadyInUse)
      && UnlikePostStep(r5.value, u, LikeAddr(PostAddr(w, 0), u), PostAddr(w, 0)) == Err(ArithmeticPanic)
  {
  }
}
