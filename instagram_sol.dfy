/**
 * The instagram-sol program as a transition system over its account store.
 *
 * Every account the program owns sits at a program-derived address; an address is
 * represented by the seed tuple it is derived from, so two addresses are equal
 * exactly when their seeds are. Each handler is a function from a store to either
 * an error (the transaction aborts and the store is left as it was) or the store
 * with all of the handler's writes applied. The checks run in the order the
 * Anchor-generated account validation and the handler body run them.
 */
module InstagramSol {
  import opened Solana
  import opened Borsh

  /** An account key: a wallet, or a program-derived address given by its seeds. */
  datatype Pubkey =
    | Wallet(id: nat)
      /** seeds `["user-profile", authority]` */
    | ProfileAddr(authority: Pubkey)
      /** seeds `["post", authority, index.to_le_bytes()]` */
    | PostAddr(authority: Pubkey, index: u64)
      /** seeds `["like", post, liker]` */
    | LikeAddr(post: Pubkey, liker: Pubkey)

  datatype UserProfile = UserProfile(authority: Pubkey, username: Bytes, postCount: u64)

  datatype Post = Post(authority: Pubkey, contentUri: Bytes, description: Bytes, likes: u64, createdAt: i64)

  /**
   * The decoded data of an account owned by the program. `LikeAccount` has no fields:
   * it is its 8-byte discriminator alone, which exactly fills the `space = 8` reserved
   * for it, so writing a like never fails at exit.
   */
  datatype Account =
    | ProfileAccount(profile: UserProfile)
    | PostAccount(post: Post)
    | LikeAccount

  /** The program's accounts; a key outside the domain holds no data. */
  type Store = map<Pubkey, Account>

  datatype Error =
      // the program's own `ErrorCode`
    | UsernameTooLong
    | ContentUriTooLong
    | DescriptionTooLong
      // raised by Anchor's account validation and serialization
    | ConstraintHasOne
    | ConstraintSeeds
    | AccountDiscriminatorMismatch
    | AccountDidNotSerialize
    | AccountNotInitialized
      // the system program refuses to create an account over an occupied address
    | AccountAlreadyInUse
      // `checked_add(1).unwrap()` / `checked_sub(1).unwrap()` on `None` panics
    | ArithmeticPanic

  /** The error number a client sees, when there is one (a panic carries none). */
  function Code(e: Error): (r: Option<nat>)
    ensures r.Some? && r.value >= 6000 <==> e.UsernameTooLong? || e.ContentUriTooLong? || e.DescriptionTooLong?
    ensures r.Some? ==> r.value <= 6002
    ensures r.None? <==> e.ArithmeticPanic?
  {
    match e
    case UsernameTooLong => Some(6000)
    case ContentUriTooLong => Some(6001)
    case DescriptionTooLong => Some(6002)
    case ConstraintHasOne => Some(2001)
    case ConstraintSeeds => Some(2006)
    case AccountDiscriminatorMismatch => Some(3002)
    case AccountDidNotSerialize => Some(3004)
    case AccountNotInitialized => Some(3012)
    case AccountAlreadyInUse => Some(0)
    case ArithmeticPanic => None
  }

  /** The space reserved for each account kind, as the `space = ...` constraints write it. */
  const PROFILE_SPACE: nat := 8 + 32 + 20 + 8 + 8 + 8
  const POST_SPACE: nat := 8 + 32 + 200 + 500 + 8 + 8

  const MAX_CONTENT_URI: nat := 200
  const MAX_DESCRIPTION: nat := 500

  /** Bytes the Borsh serialization of a profile occupies, discriminator included. */
  function ProfileSize(p: UserProfile): (r: nat)
    ensures |p.username| <= U32_MAX ==>
      r == DISCRIMINATOR_SIZE + PUBKEY_SIZE + |EncodeString(p.username)| + U64_SIZE
  {
    DISCRIMINATOR_SIZE + PUBKEY_SIZE + StringSize(p.username) + U64_SIZE
  }

  /** Bytes the Borsh serialization of a post occupies, discriminator included. */
  function PostSize(p: Post): (r: nat)
    ensures |p.contentUri| <= U32_MAX && |p.description| <= U32_MAX ==>
      r == DISCRIMINATOR_SIZE + PUBKEY_SIZE + |EncodeString(p.contentUri)| + |EncodeString(p.description)| + U64_SIZE + I64_SIZE
  {
    DISCRIMINATOR_SIZE + PUBKEY_SIZE + StringSize(p.contentUri) + StringSize(p.description) + U64_SIZE + I64_SIZE
  }

  // ---------------------------------------------------------------------------
  // Account loading: `Account<'info, T>` needs initialized data of kind T.
  // ---------------------------------------------------------------------------

  function LoadProfile(s: Store, k: Pubkey): Result<UserProfile, Error>
  {
    if k !in s then Err(AccountNotInitialized)
    else if !s[k].ProfileAccount? then Err(AccountDiscriminatorMismatch)
    else Ok(s[k].profile)
  }

  function LoadPost(s: Store, k: Pubkey): Result<Post, Error>
  {
    if k !in s then Err(AccountNotInitialized)
    else if !s[k].PostAccount? then Err(AccountDiscriminatorMismatch)
    else Ok(s[k].post)
  }

  function LoadLike(s: Store, k: Pubkey): Outcome<Error>
  {
    if k !in s then Fail(AccountNotInitialized)
    else if !s[k].LikeAccount? then Fail(AccountDiscriminatorMismatch)
    else Pass
  }

  /** The profile stored at `k`, if `k` holds one. */
  ghost predicate HasProfile(s: Store, k: Pubkey)
  {
    k in s && s[k].ProfileAccount?
  }

  ghost predicate HasPost(s: Store, k: Pubkey)
  {
    k in s && s[k].PostAccount?
  }

  // ---------------------------------------------------------------------------
  // The five handlers.
  // ---------------------------------------------------------------------------

  /** `initialize_user`: `init` the profile at `["user-profile", signer]` and fill it in. */
  function InitializeUserStep(s: Store, signer: Pubkey, profileKey: Pubkey, username: Bytes): (r: Result<Store, Error>)
    ensures r.Ok? <==> profileKey == ProfileAddr(signer) && profileKey !in s && |username| <= 32
    ensures r.Ok? ==>
      && r.value.Keys == s.Keys + {profileKey}
      && r.value[profileKey] == ProfileAccount(UserProfile(signer, username, 0))
      && forall k :: k in s ==> r.value[k] == s[k]
    ensures r.Err? ==> r.error != UsernameTooLong
  {
    if profileKey != ProfileAddr(signer) then Err(ConstraintSeeds)
    else if profileKey in s then Err(AccountAlreadyInUse)
    else
      var profile := UserProfile(signer, username, 0);
      if ProfileSize(profile) > PROFILE_SPACE then Err(AccountDidNotSerialize)
      else Ok(s[profileKey := ProfileAccount(profile)])
  }

  /**
   * `create_post`: `init` the post at `["post", signer, post_count]`, check the stored
   * authority, check both lengths, fill the post in and raise `post_count`.
   */
  function CreatePostStep(s: Store, signer: Pubkey, postKey: Pubkey, profileKey: Pubkey,
                          contentUri: Bytes, description: Bytes, now: i64): (r: Result<Store, Error>)
    ensures r.Ok? <==>
      && HasProfile(s, profileKey)
      && s[profileKey].profile.authority == signer
      && postKey == PostAddr(signer, s[profileKey].profile.postCount)
      && postKey !in s
      && |contentUri| <= MAX_CONTENT_URI
      && |description| <= MAX_DESCRIPTION
      && |contentUri| + |description| <= 692
      && s[profileKey].profile.postCount < U64_MAX
    ensures r.Ok? ==>
      var old_profile := s[profileKey].profile;
      && r.value.Keys == s.Keys + {postKey}
      && r.value[postKey] == PostAccount(Post(signer, contentUri, description, 0, now))
      && r.value[profileKey] == ProfileAccount(old_profile.(postCount := old_profile.postCount + 1))
      && forall k :: k in s && k != profileKey ==> r.value[k] == s[k]
  {
    match LoadProfile(s, profileKey)
    case Err(e) => Err(e)
    case Ok(profile) =>
      if postKey != PostAddr(signer, profile.postCount) then Err(ConstraintSeeds)
      else if postKey in s then Err(AccountAlreadyInUse)
      else if profile.authority != signer then Err(ConstraintHasOne)
      else if |contentUri| > MAX_CONTENT_URI then Err(ContentUriTooLong)
      else if |description| > MAX_DESCRIPTION then Err(DescriptionTooLong)
      else match CheckedAdd(profile.postCount, 1)
        case None => Err(ArithmeticPanic)
        case Some(count) =>
          var post := Post(signer, contentUri, description, 0, now);
          if PostSize(post) > POST_SPACE then Err(AccountDidNotSerialize)
          else Ok(s[postKey := PostAccount(post)][profileKey := ProfileAccount(profile.(postCount := count))])
  }

  /** `delete_post`: both `has_one = authority` checks, lower `post_count`, `close` the post. */
  function DeletePostStep(s: Store, signer: Pubkey, postKey: Pubkey, profileKey: Pubkey): (r: Result<Store, Error>)
    ensures r.Ok? <==>
      && HasPost(s, postKey)
      && HasProfile(s, profileKey)
      && s[postKey].post.authority == signer
      && s[profileKey].profile.authority == signer
      && s[profileKey].profile.postCount >= 1
    ensures r.Ok? ==>
      var old_profile := s[profileKey].profile;
      && r.value.Keys == s.Keys - {postKey}
      && r.value[profileKey] == ProfileAccount(old_profile.(postCount := old_profile.postCount - 1))
      && forall k :: k in s && k != postKey && k != profileKey ==> r.value[k] == s[k]
  {
    match LoadPost(s, postKey)
    case Err(e) => Err(e)
    case Ok(post) =>
      match LoadProfile(s, profileKey)
      case Err(e) => Err(e)
      case Ok(profile) =>
        if post.authority != signer then Err(ConstraintHasOne)
        else if profile.authority != signer then Err(ConstraintHasOne)
        else match CheckedSub(profile.postCount, 1)
          case None => Err(ArithmeticPanic)
          case Some(count) => Ok((s - {postKey})[profileKey := ProfileAccount(profile.(postCount := count))])
  }

  /** `like_post`: `init` the like at `["like", post, signer]` and raise the post's `likes`. */
  function LikePostStep(s: Store, signer: Pubkey, likeKey: Pubkey, postKey: Pubkey): (r: Result<Store, Error>)
    ensures r.Ok? <==>
      && HasPost(s, postKey)
      && likeKey == LikeAddr(postKey, signer)
      && likeKey !in s
      && s[postKey].post.likes < U64_MAX
    ensures r.Ok? ==>
      var old_post := s[postKey].post;
      && r.value.Keys == s.Keys + {likeKey}
      && r.value[likeKey] == LikeAccount
      && r.value[postKey] == PostAccount(old_post.(likes := old_post.likes + 1))
      && forall k :: k in s && k != postKey ==> r.value[k] == s[k]
  {
    match LoadPost(s, postKey)
    case Err(e) => Err(e)
    case Ok(post) =>
      if likeKey != LikeAddr(postKey, signer) then Err(ConstraintSeeds)
      else if likeKey in s then Err(AccountAlreadyInUse)
      else match CheckedAdd(post.likes, 1)
        case None => Err(ArithmeticPanic)
        case Some(likes) => Ok(s[likeKey := LikeAccount][postKey := PostAccount(post.(likes := likes))])
  }

  /** `unlike_post`: the like must sit at `["like", post, signer]`; lower `likes` and `close` the like. */
  function UnlikePostStep(s: Store, signer: Pubkey, likeKey: Pubkey, postKey: Pubkey): (r: Result<Store, Error>)
    ensures r.Ok? <==>
      && likeKey in s && s[likeKey].LikeAccount?
      && HasPost(s, postKey)
      && likeKey == LikeAddr(postKey, signer)
      && s[postKey].post.likes >= 1
    ensures r.Ok? ==>
      var old_post := s[postKey].post;
      && r.value.Keys == s.Keys - {likeKey}
      && r.value[postKey] == PostAccount(old_post.(likes := old_post.likes - 1))
      && forall k :: k in s && k != likeKey && k != postKey ==> r.value[k] == s[k]
  {
    match LoadLike(s, likeKey)
    case Fail(e) => Err(e)
    case Pass =>
      match LoadPost(s, postKey)
      case Err(e) => Err(e)
      case Ok(post) =>
        if likeKey != LikeAddr(postKey, signer) then Err(ConstraintSeeds)
        else match CheckedSub(post.likes, 1)
          case None => Err(ArithmeticPanic)
          case Some(likes) => Ok((s - {likeKey})[postKey := PostAccount(post.(likes := likes))])
  }
}
