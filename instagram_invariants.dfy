/**
 * Cross-record invariants of the instagram-sol store.
 *
 * `Consistent`: every account sits at the address its own fields derive, every post
 * has its author's profile, and each profile's `post_count` equals the number of its
 * author's live posts. All five handlers keep it, so `delete_post`'s `checked_sub`
 * never fails.
 *
 * `LikesAccounted`: each post's `likes` equals the number of like accounts derived
 * from it, and every like account's post exists. All handlers but `delete_post` keep
 * it; `delete_post` leaves the likes of the deleted post behind.
 */
module InstagramInvariants {
  import opened Solana
  import opened InstagramSol

  ghost predicate AtHome(s: Store, k: Pubkey)
    requires k in s
  {
    match s[k]
    case ProfileAccount(p) => k == ProfileAddr(p.authority)
    case PostAccount(p) => k.PostAddr? && k.authority == p.authority && HasProfile(s, ProfileAddr(p.authority))
    case LikeAccount => k.LikeAddr?
  }

  ghost predicate WellFormed(s: Store)
  {
    forall k :: k in s ==> AtHome(s, k)
  }

  /** The live posts whose authority is `a`. */
  ghost function PostsOf(s: Store, a: Pubkey): set<Pubkey>
  {
    set k | k in s && s[k].PostAccount? && s[k].post.authority == a
  }

  ghost predicate PostCountsMatch(s: Store)
  {
    forall k :: HasProfile(s, k) ==> s[k].profile.postCount == |PostsOf(s, s[k].profile.authority)|
  }

  ghost predicate Consistent(s: Store)
  {
    WellFormed(s) && PostCountsMatch(s)
  }

  /** The like accounts derived from post address `p`. */
  ghost function LikesOf(s: Store, p: Pubkey): set<Pubkey>
  {
    set k | k in s && s[k].LikeAccount? && k.LikeAddr? && k.post == p
  }

  ghost predicate LikesMatch(s: Store)
  {
    forall k :: HasPost(s, k) ==> s[k].post.likes == |LikesOf(s, k)|
  }

  ghost predicate NoOrphanLikes(s: Store)
  {
    forall k :: k in s && s[k].LikeAccount? && k.LikeAddr? ==> HasPost(s, k.post)
  }

  ghost predicate LikesAccounted(s: Store)
  {
    LikesMatch(s) && NoOrphanLikes(s)
  }

  /** There is at most one profile per authority, and it is the one at its derived address. */
  lemma OneProfilePerAuthority(s: Store, k1: Pubkey, k2: Pubkey)
    requires WellFormed(s)
    requires HasProfile(s, k1) && HasProfile(s, k2)
    requires s[k1].profile.authority == s[k2].profile.authority
    ensures k1 == k2 == ProfileAddr(s[k1].profile.authority)
  {
    assert AtHome(s, k1) && AtHome(s, k2);
  }

  lemma EmptyStoreIsConsistent()
    ensures Consistent(map[]) && LikesAccounted(map[])
  {
  }

  // ---------------------------------------------------------------------------
  // initialize_user
  // ---------------------------------------------------------------------------

  lemma InitializeUserPreserves(s: Store, signer: Pubkey, profileKey: Pubkey, username: Bytes)
    requires Consistent(s) && InitializeUserStep(s, signer, profileKey, username).Ok?
    ensures var s' := InitializeUserStep(s, signer, profileKey, username).value;
            Consistent(s') && (LikesAccounted(s) ==> LikesAccounted(s'))
  {
    var s' := InitializeUserStep(s, signer, profileKey, username).value;
    forall k | k in s' ensures AtHome(s', k) {
      if k != profileKey { assert AtHome(s, k); }
    }
    forall a ensures PostsOf(s', a) == PostsOf(s, a) {
    }
    forall k | k in s && s[k].PostAccount? ensures s[k].post.authority != signer {
      assert AtHome(s, k);
    }
    assert PostsOf(s, signer) == {};
    forall p ensures LikesOf(s', p) == LikesOf(s, p) {
    }
  }

  // ---------------------------------------------------------------------------
  // create_post
  // ---------------------------------------------------------------------------

  lemma CreatePostPreserves(s: Store, signer: Pubkey, postKey: Pubkey, profileKey: Pubkey,
                            contentUri: Bytes, description: Bytes, now: i64)
    requires Consistent(s) && CreatePostStep(s, signer, postKey, profileKey, contentUri, description, now).Ok?
    ensures var s' := CreatePostStep(s, signer, postKey, profileKey, contentUri, description, now).value;
            Consistent(s') && (LikesAccounted(s) ==> LikesAccounted(s'))
  {
    var s' := CreatePostStep(s, signer, postKey, profileKey, contentUri, description, now).value;
    var profile := s[profileKey].profile;
    var post := Post(signer, contentUri, description, 0, now);
    assert s' == s[postKey := PostAccount(post)][profileKey := ProfileAccount(profile.(postCount := profile.postCount + 1))];
    AddPostKeepsConsistent(s, postKey, profileKey, post);
    if LikesAccounted(s) {
      AddPostKeepsLikesAccounted(s, postKey, profileKey, post, profile.(postCount := profile.postCount + 1));
    }
  }

  /** Adding `post` at a free address of its author's post space, together with one more post on the profile. */
  lemma AddPostKeepsConsistent(s: Store, postKey: Pubkey, profileKey: Pubkey, post: Post)
    requires Consistent(s) && HasProfile(s, profileKey)
    requires s[profileKey].profile.authority == post.authority
    requires postKey !in s && postKey.PostAddr? && postKey.authority == post.authority
    requires s[profileKey].profile.postCount < U64_MAX
    ensures var profile := s[profileKey].profile;
            Consistent(s[postKey := PostAccount(post)][profileKey := ProfileAccount(profile.(postCount := profile.postCount + 1))])
  {
    var profile := s[profileKey].profile;
    var signer := post.authority;
    var s' := s[postKey := PostAccount(post)][profileKey := ProfileAccount(profile.(postCount := profile.postCount + 1))];
    assert AtHome(s, profileKey);
    assert profileKey == ProfileAddr(signer);
    forall k | k in s' ensures AtHome(s', k) {
      if k != profileKey && k != postKey { assert AtHome(s, k); }
    }
    assert PostsOf(s', signer) == PostsOf(s, signer) + {postKey};
    forall k | HasProfile(s', k)
      ensures s'[k].profile.postCount == |PostsOf(s', s'[k].profile.authority)|
    {
      if k != profileKey {
        assert AtHome(s, k);
        var a := s'[k].profile.authority;
        assert a != signer;
        assert PostsOf(s', a) == PostsOf(s, a);
      }
    }
  }

  /** Adding a post without likes at a free address, while rewriting a profile. */
  lemma AddPostKeepsLikesAccounted(s: Store, postKey: Pubkey, profileKey: Pubkey, post: Post, profile: UserProfile)
    requires LikesAccounted(s) && HasProfile(s, profileKey)
    requires postKey !in s && post.likes == 0
    ensures LikesAccounted(s[postKey := PostAccount(post)][profileKey := ProfileAccount(profile)])
  {
    var s' := s[postKey := PostAccount(post)][profileKey := ProfileAccount(profile)];
    forall k | k in s && s[k].LikeAccount? && k.LikeAddr? ensures k.post != postKey {
      assert HasPost(s, k.post);
    }
    assert LikesOf(s', postKey) == {};
    forall k | HasPost(s', k) ensures s'[k].post.likes == |LikesOf(s', k)| {
      if k != postKey {
        assert HasPost(s, k);
        assert LikesOf(s', k) == LikesOf(s, k);
      }
    }
  }

  // ---------------------------------------------------------------------------
  // delete_post
  // ---------------------------------------------------------------------------

  lemma DeletePostPreserves(s: Store, signer: Pubkey, postKey: Pubkey, profileKey: Pubkey)
    requires Consistent(s) && DeletePostStep(s, signer, postKey, profileKey).Ok?
    ensures var s' := DeletePostStep(s, signer, postKey, profileKey).value;
            Consistent(s') && (LikesMatch(s) ==> LikesMatch(s'))
  {
    var s' := DeletePostStep(s, signer, postKey, profileKey).value;
    assert AtHome(s, profileKey);
    forall k | k in s' ensures AtHome(s', k) {
      assert AtHome(s, k);
    }
    assert PostsOf(s', signer) == PostsOf(s, signer) - {postKey};
    forall a | a != signer ensures PostsOf(s', a) == PostsOf(s, a) {
    }
    forall k | HasProfile(s', k)
      ensures s'[k].profile.postCount == |PostsOf(s', s'[k].profile.authority)|
    {
      if k != profileKey {
        assert AtHome(s, k);
        assert s'[k].profile.authority != signer;
      }
    }
    if LikesMatch(s) {
      forall p ensures LikesOf(s', p) == LikesOf(s, p) {
      }
      forall k | HasPost(s', k) ensures s'[k].post.likes == |LikesOf(s', k)| {
        assert HasPost(s, k);
      }
    }
  }

  /** Under `Consistent`, a delete that passes its authority checks never underflows `post_count`. */
  lemma DeletePostNeverUnderflows(s: Store, signer: Pubkey, postKey: Pubkey, profileKey: Pubkey)
    requires Consistent(s)
    requires HasPost(s, postKey) && HasProfile(s, profileKey)
    requires s[postKey].post.authority == signer && s[profileKey].profile.authority == signer
    ensures DeletePostStep(s, signer, postKey, profileKey).Ok?
  {
    assert postKey in PostsOf(s, signer);
  }

  // ---------------------------------------------------------------------------
  // like_post and unlike_post
  // ---------------------------------------------------------------------------

  lemma LikePostPreserves(s: Store, signer: Pubkey, likeKey: Pubkey, postKey: Pubkey)
    requires Consistent(s) && LikePostStep(s, signer, likeKey, postKey).Ok?
    ensures var s' := LikePostStep(s, signer, likeKey, postKey).value;
            Consistent(s') && (LikesAccounted(s) ==> LikesAccounted(s'))
  {
    var s' := LikePostStep(s, signer, likeKey, postKey).value;
    LikePostKeepsConsistent(s, s', signer, likeKey, postKey);
    if LikesAccounted(s) {
      LikePostKeepsLikesAccounted(s, s', signer, likeKey, postKey);
    }
  }

  lemma LikePostKeepsConsistent(s: Store, s': Store, signer: Pubkey, likeKey: Pubkey, postKey: Pubkey)
    requires Consistent(s) && LikePostStep(s, signer, likeKey, postKey) == Ok(s')
    ensures Consistent(s')
  {
    forall k | k in s' ensures AtHome(s', k) {
      if k != likeKey { assert AtHome(s, k); }
    }
    forall a ensures PostsOf(s', a) == PostsOf(s, a) {
    }
  }

  lemma LikePostKeepsLikesAccounted(s: Store, s': Store, signer: Pubkey, likeKey: Pubkey, postKey: Pubkey)
    requires LikesAccounted(s) && LikePostStep(s, signer, likeKey, postKey) == Ok(s')
    ensures LikesAccounted(s')
  {
    var post := s[postKey].post;
    AddLikeKeepsLikesAccounted(s, likeKey, postKey, post.(likes := post.likes + 1));
  }

  /** Adding the like `likeKey` of `postKey` together with one more like on that post. */
  lemma AddLikeKeepsLikesAccounted(s: Store, likeKey: Pubkey, postKey: Pubkey, post: Post)
    requires LikesAccounted(s) && HasPost(s, postKey)
    requires likeKey !in s && likeKey.LikeAddr? && likeKey.post == postKey
    requires post.likes == s[postKey].post.likes + 1
    ensures LikesAccounted(s[likeKey := LikeAccount][postKey := PostAccount(post)])
  {
    var s' := s[likeKey := LikeAccount][postKey := PostAccount(post)];
    assert LikesOf(s', postKey) == LikesOf(s, postKey) + {likeKey};
    forall k | HasPost(s', k) ensures s'[k].post.likes == |LikesOf(s', k)| {
      if k != postKey {
        assert LikesOf(s', k) == LikesOf(s, k);
      }
    }
  }

  lemma UnlikePostPreserves(s: Store, signer: Pubkey, likeKey: Pubkey, postKey: Pubkey)
    requires Consistent(s) && UnlikePostStep(s, signer, likeKey, postKey).Ok?
    ensures var s' := UnlikePostStep(s, signer, likeKey, postKey).value;
            Consistent(s') && (LikesAccounted(s) ==> LikesAccounted(s'))
  {
    var s' := UnlikePostStep(s, signer, likeKey, postKey).value;
    UnlikePostKeepsConsistent(s, s', signer, likeKey, postKey);
    if LikesAccounted(s) {
      UnlikePostKeepsLikesAccounted(s, s', signer, likeKey, postKey);
    }
  }

  lemma UnlikePostKeepsConsistent(s: Store, s': Store, signer: Pubkey, likeKey: Pubkey, postKey: Pubkey)
    requires Consistent(s) && UnlikePostStep(s, signer, likeKey, postKey) == Ok(s')
    ensures Consistent(s')
  {
    forall k | k in s' ensures AtHome(s', k) {
      assert AtHome(s, k);
    }
    forall a ensures PostsOf(s', a) == PostsOf(s, a) {
    }
  }

  lemma UnlikePostKeepsLikesAccounted(s: Store, s': Store, signer: Pubkey, likeKey: Pubkey, postKey: Pubkey)
    requires LikesAccounted(s) && UnlikePostStep(s, signer, likeKey, postKey) == Ok(s')
    ensures LikesAccounted(s')
  {
    assert LikesOf(s', postKey) == LikesOf(s, postKey) - {likeKey};
    forall p | p != postKey ensures LikesOf(s', p) == LikesOf(s, p) {
    }
    forall k | HasPost(s', k) ensures s'[k].post.likes == |LikesOf(s', k)| {
      assert HasPost(s, k);
    }
  }

  /** Under `LikesMatch`, an unlike whose like account exists never underflows `likes`. */
  lemma UnlikePostNeverUnderflows(s: Store, signer: Pubkey, postKey: Pubkey)
    requires LikesMatch(s)
    requires HasPost(s, postKey)
    requires LikeAddr(postKey, signer) in s && s[LikeAddr(postKey, signer)].LikeAccount?
    ensures UnlikePostStep(s, signer, LikeAddr(postKey, signer), postKey).Ok?
  {
    assert LikeAddr(postKey, signer) in LikesOf(s, postKey);
  }

  /** `delete_post` does not keep `LikesAccounted`: a liked post's like outlives it. */
  lemma DeletePostOrphansLikes(w: Pubkey, u: Pubkey, now: i64)
    ensures
      var r1 := InitializeUserStep(map[], w, ProfileAddr(w), []);
      && r1.Ok?
      && var r2 := CreatePostStep(r1.value, w, PostAddr(w, 0), ProfileAddr(w), [], [], now);
      && r2.Ok?
      && var r3 := LikePostStep(r2.value, u, LikeAddr(PostAddr(w, 0), u), PostAddr(w, 0));
      && r3.Ok?
      && LikesAccounted(r3.value)
      && var r4 := DeletePostStep(r3.value, w, PostAddr(w, 0), ProfileAddr(w));
      && r4.Ok?
      && !NoOrphanLikes(r4.value)
  {
    var s1 := InitializeUserStep(map[], w, ProfileAddr(w), []).value;
    var s2 := CreatePostStep(s1, w, PostAddr(w, 0), ProfileAddr(w), [], [], now).value;
    var like := LikeAddr(PostAddr(w, 0), u);
    var s3 := LikePostStep(s2, u, like, PostAddr(w, 0)).value;
    assert LikesOf(s3, PostAddr(w, 0)) == {like};
    assert s3.Keys == {ProfileAddr(w), PostAddr(w, 0), like};
    var s4 := DeletePostStep(s3, w, PostAddr(w, 0), ProfileAddr(w)).value;
    assert like in s4 && s4[like].LikeAccount? && !HasPost(s4, like.post);
  }
}
