# Instagram-sol and twitter reactions, modelled in Dafny

This project models two small Anchor programs for Solana.

- **instagram-sol** keeps one profile per wallet, posts numbered per author, and one like account per (post, liker).
- **twitter** stores comments in fixed 500-byte buffers and reactions as one account per (author, tweet), with like/dislike counters on the tweet.

Both programs keep their records in accounts at program-derived addresses (PDAs). Each program is modelled as one store, `map<Pubkey, Account>`. An address is a datatype value built from what it is derived from, so two addresses are equal exactly when those parts are:

- `InstagramSol.ProfileAddr`, `PostAddr` and `LikeAddr` are built from their seeds alone. Every instagram-sol account is created by an `init` with the canonical `bump`, so no program account lives at any other address and leaving the bump out loses nothing. The handlers that take a `post` or a `user_profile` without `seeds` check only its kind and its `has_one`, and so does the model;
- `TwitterState.Pda(seeds, bump)` is built from its seeds and its bump, since the twitter program checks some addresses against a stored bump.

`init` means "the key is absent, then insert it", and `close` means "remove the key".

Each instruction is modelled twice.

1. **A transition function** `...Step(store, ...) : Result<Store, Error>`. It performs the checks in the order Anchor runs them:
   1. deserialize the non-`init` accounts in field order (`AccountNotInitialized`, `AccountDiscriminatorMismatch`);
   2. derive and create the `init` accounts (`ConstraintSeeds`, `AccountAlreadyInUse`);
   3. check the remaining constraints (`has_one`, `seeds`);
   4. run the handler body;
   5. serialize at exit (`AccountDidNotSerialize`).

   The function's contract states exactly when the instruction succeeds and what each touched account holds afterwards. It also states that every other account is unchanged.
2. **An imperative handler** on a `Ledger` object. It loads copies of its accounts, checks them, updates the copies field by field and writes them back. It is proved to do what the transition function says: all writes on success, none on error. It is also proved to keep the store invariant.

A Rust panic (`checked_add(1).unwrap()` on overflow, or slicing past the end of an array) aborts the transaction. It is modelled as an error value.

Behaviour of the code as written that a reader may not expect:
- `delete_post` lowers `post_count`, so post indices are reused after a delete.
- No handler checks the username length, so `UsernameTooLong` is never raised. A username longer than 32 bytes fails when the profile is serialized into its 84 reserved bytes, with `AccountDidNotSerialize`. This is the error the repository's test expects.
- The post reserves 756 bytes. That reservation leaves no room for the two 4-byte string length prefixes, so a post with a 200-byte URI and a 500-byte description passes the explicit length checks but cannot be stored.
- Authorization failures are Anchor's `ConstraintHasOne` and `ConstraintSeeds`. The program declares no error of its own for them.

Files:
- `solana.dfy`: machine integers and checked arithmetic.
- `borsh.dfy`: little-endian integers and length-prefixed strings, with their round trips.
- `instagram_sol.dfy`: accounts, errors and the five transitions.
- `instagram_properties.dfy`: facts about single calls and short call sequences.
- `instagram_invariants.dfy`: the store invariant and its preservation.
- `instagram_ledger.dfy`: the imperative handlers.
- `twitter_state.dfy`: tweet, reaction and comment accounts, the store invariant, and the ledger object.
- `add_comment.dfy`, `add_reaction.dfy`, `remove_reaction.dfy`: one instruction each.

## Model

| member | source | states |
|---|---|---|
| Solana.CheckedAdd | program-rioyuda02/Solana_Instagram/anchor_project/instagram-sol/programs/instagram-sol/src/lib.rs:42 | `checked_add` yields nothing exactly when the sum exceeds `u64::MAX`, and otherwise yields the sum |
| Solana.CheckedSub | program-rioyuda02/Solana_Instagram/anchor_project/instagram-sol/programs/instagram-sol/src/lib.rs:50 | `checked_sub` yields nothing exactly when the result would be negative, and otherwise yields the difference |
| Borsh.LeBytes | program-rioyuda02/Solana_Instagram/anchor_project/instagram-sol/programs/instagram-sol/src/lib.rs:92 | `to_le_bytes` of an integer below 256^n is exactly n bytes long |
| Borsh.LeBytesDigits | program-rioyuda02/Solana_Instagram/anchor_project/instagram-sol/programs/instagram-sol/src/lib.rs:92 | byte i of `to_le_bytes` is digit i of the integer in base 256, least significant first |
| Borsh.FromLe | program-rioyuda02/Solana_Instagram/anchor_project/instagram-sol/programs/instagram-sol/src/lib.rs:92 | a little-endian integer read from n bytes is below 256^n |
| Borsh.FromLeOfLeBytes | program-rioyuda02/Solana_Instagram/anchor_project/instagram-sol/programs/instagram-sol/src/lib.rs:92 | decoding `to_le_bytes` gives back the integer |
| Borsh.LeBytesOfFromLe | program-rioyuda02/Solana_Instagram/anchor_project/instagram-sol/programs/instagram-sol/src/lib.rs:92 | encoding a decoded byte string gives back the bytes |
| Borsh.LeBytesInjective | program-rioyuda02/Solana_Instagram/anchor_project/instagram-sol/programs/instagram-sol/src/lib.rs:92 | two integers of one width have equal encodings exactly when they are equal |
| Borsh.EncodeString | program-rioyuda02/Solana_Instagram/anchor_project/instagram-sol/programs/instagram-sol/src/lib.rs:149 | a Borsh string is a 4-byte length followed by its bytes, `4 + len` bytes in all |
| Borsh.DecodeEncodeString | program-rioyuda02/Solana_Instagram/anchor_project/instagram-sol/programs/instagram-sol/src/lib.rs:149 | decoding an encoded string returns the string and the bytes that follow it |
| Borsh.EncodeDecodeString | program-rioyuda02/Solana_Instagram/anchor_project/instagram-sol/programs/instagram-sol/src/lib.rs:149 | a successful decode re-encodes to the original buffer |
| InstagramSol.Code | program-rioyuda02/Solana_Instagram/anchor_project/instagram-sol/programs/instagram-sol/src/lib.rs:165-173 | exactly the three `ErrorCode` variants get the program error numbers 6000–6002, the Anchor errors get numbers below 6000, and only the arithmetic panic has no number |
| InstagramSol.ProfileSize | program-rioyuda02/Solana_Instagram/anchor_project/instagram-sol/programs/instagram-sol/src/lib.rs:146-151 | a profile occupies the 8-byte discriminator, the 32-byte authority, the Borsh-encoded username and the 8-byte `post_count`; this is what is checked against `space` (line 76) |
| InstagramSol.PostSize | program-rioyuda02/Solana_Instagram/anchor_project/instagram-sol/programs/instagram-sol/src/lib.rs:153-160 | a post occupies the discriminator, the authority, the two Borsh-encoded strings, `likes` and `created_at`; this is what is checked against `space` (line 91) |
| InstagramSol.InitializeUserStep | program-rioyuda02/Solana_Instagram/anchor_project/instagram-sol/programs/instagram-sol/src/lib.rs:14-23 | with the `InitializeUser` accounts of lines 71-84: succeeds iff the key is `["user-profile", signer]`, that key is free and the username fits the 84-byte space (at most 32 bytes); then it adds exactly that profile, with `post_count` 0, and never fails with `UsernameTooLong` |
| InstagramSol.CreatePostStep | program-rioyuda02/Solana_Instagram/anchor_project/instagram-sol/programs/instagram-sol/src/lib.rs:25-45 | with the `CreatePost` accounts of lines 86-101: succeeds iff the profile exists and belongs to the signer, the post key is `["post", signer, post_count]` and free, URI ≤ 200, description ≤ 500, both together ≤ 692 and `post_count` < `u64::MAX`; then it adds the post with 0 likes and the given time, raises `post_count` by one, and changes nothing else |
| InstagramSol.DeletePostStep | program-rioyuda02/Solana_Instagram/anchor_project/instagram-sol/programs/instagram-sol/src/lib.rs:47-52 | with the `DeletePost` accounts of lines 103-111: succeeds iff the post and the profile exist, both belong to the signer and `post_count` ≥ 1; then it removes the post, lowers `post_count` by one, and changes nothing else |
| InstagramSol.LikePostStep | program-rioyuda02/Solana_Instagram/anchor_project/instagram-sol/programs/instagram-sol/src/lib.rs:54-58 | with the `LikePost` accounts of lines 113-128: succeeds iff the post exists, the like key is `["like", post, signer]` and free, and `likes` < `u64::MAX`; then it adds the like, raises `likes` by one, and changes nothing else |
| InstagramSol.UnlikePostStep | program-rioyuda02/Solana_Instagram/anchor_project/instagram-sol/programs/instagram-sol/src/lib.rs:60-64 | with the `UnlikePost` accounts of lines 130-143: succeeds iff the like account exists at `["like", post, signer]`, the post exists and `likes` ≥ 1; then it removes the like, lowers `likes` by one, and changes nothing else |
| InstagramProperties.PostIndexSeedInjective | program-rioyuda02/Solana_Instagram/anchor_project/instagram-sol/programs/instagram-sol/src/lib.rs:92 | the 8-byte index seed tells every two post indices apart |
| InstagramProperties.ContentUriTooLongCode | program-rioyuda02/Solana_Instagram/anchor_project/instagram-sol/tests/instagram-sol.ts:240-277 | `ContentUriTooLong` is custom error 0x1771, `AccountDidNotSerialize` (the error the long-username test matches) is 0xbbc, and no two errors share a number |
| InstagramProperties.InitializeUserOnce | program-rioyuda02/Solana_Instagram/anchor_project/instagram-sol/programs/instagram-sol/src/lib.rs:73-79 | a second `initialize_user` by the same signer fails with `AccountAlreadyInUse` |
| InstagramProperties.LongUsernameFailsToSerialize | program-rioyuda02/Solana_Instagram/anchor_project/instagram-sol/tests/instagram-sol.ts:201-229 | a username over 32 bytes makes `initialize_user` fail with `AccountDidNotSerialize` |
| InstagramProperties.UsernameTooLongNeverRaised | program-rioyuda02/Solana_Instagram/anchor_project/instagram-sol/programs/instagram-sol/src/lib.rs:165-168 | no handler ever fails with `UsernameTooLong` |
| InstagramProperties.CreatePostLengthChecks | program-rioyuda02/Solana_Instagram/anchor_project/instagram-sol/programs/instagram-sol/src/lib.rs:30-31 | once the accounts pass, an over-long URI fails with `ContentUriTooLong`, and an acceptable URI with an over-long description fails with `DescriptionTooLong` |
| InstagramProperties.FullSizePostDoesNotSerialize | program-rioyuda02/Solana_Instagram/anchor_project/instagram-sol/programs/instagram-sol/src/lib.rs:91 | within the declared limits, `create_post` fails exactly when URI plus description exceed 692 bytes; the 200 + 500 post fails with `AccountDidNotSerialize` |
| InstagramProperties.CreateThenDeleteRestores | program-rioyuda02/Solana_Instagram/anchor_project/instagram-sol/tests/instagram-sol.ts:59-113 | creating a post and deleting it again gives back exactly the original store |
| InstagramProperties.LikeThenUnlikeRestores | program-rioyuda02/Solana_Instagram/anchor_project/instagram-sol/tests/instagram-sol.ts:121-190 | a like raises `likes` by one, and the unlike that follows gives back exactly the original store |
| InstagramProperties.LikeTwiceFails | program-rioyuda02/Solana_Instagram/anchor_project/instagram-sol/programs/instagram-sol/src/lib.rs:115-121 | a second like by the same signer on the same post fails whatever like key it names, with `AccountAlreadyInUse` at the derived key |
| InstagramProperties.UnlikeWithoutLikeFails | program-rioyuda02/Solana_Instagram/anchor_project/instagram-sol/programs/instagram-sol/src/lib.rs:132-138 | unliking without a like account fails with `AccountNotInitialized` |
| InstagramProperties.DeleteThenCreateCollides | program-rioyuda02/Solana_Instagram/anchor_project/instagram-sol/programs/instagram-sol/src/lib.rs:50 | after posts 0 and 1 and the deletion of post 0, `post_count` is 1 while post 1 still exists, so every `create_post` for that profile fails in that state |
| InstagramProperties.DeletedPostLeavesLikes | program-rioyuda02/Solana_Instagram/anchor_project/instagram-sol/programs/instagram-sol/src/lib.rs:105 | a deleted post's like survives; when the post index is reused, the new post has 0 likes, a like by the old liker fails with `AccountAlreadyInUse`, and an unlike panics |
| InstagramInvariants.OneProfilePerAuthority | program-rioyuda02/Solana_Instagram/anchor_project/instagram-sol/programs/instagram-sol/src/lib.rs:77 | in a well-formed store two profiles with the same authority are the same account |
| InstagramInvariants.EmptyStoreIsConsistent | program-rioyuda02/Solana_Instagram/anchor_project/instagram-sol/programs/instagram-sol/src/lib.rs:146-163 | the empty store satisfies both invariants |
| InstagramInvariants.InitializeUserPreserves | program-rioyuda02/Solana_Instagram/anchor_project/instagram-sol/programs/instagram-sol/src/lib.rs:14-23 | `initialize_user` keeps the invariant that every account sits at its derived address and every `post_count` counts the author's live posts; it also keeps likes accounted |
| InstagramInvariants.CreatePostPreserves | program-rioyuda02/Solana_Instagram/anchor_project/instagram-sol/programs/instagram-sol/src/lib.rs:25-45 | `create_post` keeps both invariants |
| InstagramInvariants.AddPostKeepsConsistent | program-rioyuda02/Solana_Instagram/anchor_project/instagram-sol/programs/instagram-sol/src/lib.rs:36-42 | adding a post at a free address of its author, while raising that author's count, keeps `post_count` equal to the number of live posts |
| InstagramInvariants.AddPostKeepsLikesAccounted | program-rioyuda02/Solana_Instagram/anchor_project/instagram-sol/programs/instagram-sol/src/lib.rs:39 | a new post with 0 likes keeps every post's `likes` equal to its number of like accounts |
| InstagramInvariants.DeletePostPreserves | program-rioyuda02/Solana_Instagram/anchor_project/instagram-sol/programs/instagram-sol/src/lib.rs:47-52 | `delete_post` keeps `post_count` equal to the number of live posts, and keeps the `likes` counts of the remaining posts |
| InstagramInvariants.DeletePostNeverUnderflows | program-rioyuda02/Solana_Instagram/anchor_project/instagram-sol/programs/instagram-sol/src/lib.rs:50 | in a consistent store, a delete whose ownership checks pass never hits the `checked_sub` panic |
| InstagramInvariants.LikePostPreserves | program-rioyuda02/Solana_Instagram/anchor_project/instagram-sol/programs/instagram-sol/src/lib.rs:54-58 | `like_post` keeps both invariants |
| InstagramInvariants.LikePostKeepsConsistent | program-rioyuda02/Solana_Instagram/anchor_project/instagram-sol/programs/instagram-sol/src/lib.rs:113-128 | the like is at its derived address and the post counts are untouched |
| InstagramInvariants.LikePostKeepsLikesAccounted | program-rioyuda02/Solana_Instagram/anchor_project/instagram-sol/programs/instagram-sol/src/lib.rs:56 | the post's `likes` and its set of like accounts grow together |
| InstagramInvariants.AddLikeKeepsLikesAccounted | program-rioyuda02/Solana_Instagram/anchor_project/instagram-sol/programs/instagram-sol/src/lib.rs:56 | adding a fresh like of a post while raising that post's `likes` by one keeps likes accounted |
| InstagramInvariants.UnlikePostPreserves | program-rioyuda02/Solana_Instagram/anchor_project/instagram-sol/programs/instagram-sol/src/lib.rs:60-64 | `unlike_post` keeps both invariants |
| InstagramInvariants.UnlikePostKeepsConsistent | program-rioyuda02/Solana_Instagram/anchor_project/instagram-sol/programs/instagram-sol/src/lib.rs:130-143 | closing a like keeps every account at home and the post counts untouched |
| InstagramInvariants.UnlikePostKeepsLikesAccounted | program-rioyuda02/Solana_Instagram/anchor_project/instagram-sol/programs/instagram-sol/src/lib.rs:62 | the post's `likes` and its set of like accounts shrink together |
| InstagramInvariants.UnlikePostNeverUnderflows | program-rioyuda02/Solana_Instagram/anchor_project/instagram-sol/programs/instagram-sol/src/lib.rs:62 | while likes are accounted, an unlike whose like account exists never hits the `checked_sub` panic |
| InstagramInvariants.DeletePostOrphansLikes | program-rioyuda02/Solana_Instagram/anchor_project/instagram-sol/programs/instagram-sol/src/lib.rs:103-111 | deleting a liked post leaves a like account whose post is gone |
| InstagramLedger.Ledger.constructor | program-rioyuda02/Solana_Instagram/anchor_project/instagram-sol/programs/instagram-sol/src/lib.rs:146-163 | a fresh ledger is empty and satisfies both invariants |
| InstagramLedger.Ledger.InitializeUser | program-rioyuda02/Solana_Instagram/anchor_project/instagram-sol/programs/instagram-sol/src/lib.rs:14-23 | reports the transition's outcome and commits all of its writes or none, keeping the invariants |
| InstagramLedger.Ledger.CreatePost | program-rioyuda02/Solana_Instagram/anchor_project/instagram-sol/programs/instagram-sol/src/lib.rs:25-45 | the same, for `create_post` |
| InstagramLedger.Ledger.DeletePost | program-rioyuda02/Solana_Instagram/anchor_project/instagram-sol/programs/instagram-sol/src/lib.rs:47-52 | the same, for `delete_post`; it keeps `Valid` and `LikesMatch`, but not `NoOrphanLikes`, because it can orphan likes |
| InstagramLedger.Ledger.LikePost | program-rioyuda02/Solana_Instagram/anchor_project/instagram-sol/programs/instagram-sol/src/lib.rs:54-58 | the same, for `like_post` |
| InstagramLedger.Ledger.UnlikePost | program-rioyuda02/Solana_Instagram/anchor_project/instagram-sol/programs/instagram-sol/src/lib.rs:60-64 | the same, for `unlike_post` |
| TwitterState.CheckTweetKey | task4-rioyuda02/programs/twitter/src/instructions/add_comment.rs:73-82 | the `tweet` account passes exactly when its key is the address of `topic[..topic_length]` and its author at its stored bump; slicing past the topic's end panics |
| TwitterState.OneReactionPerAuthorAndTweet | task4-rioyuda02/programs/twitter/src/instructions/add_reaction.rs:51-60 | the reaction account is created only at the canonical address of (author, tweet), so in a consistent store two reactions with the same author and tweet are the same account |
| TwitterState.OneCommentPerAuthorTweetAndHash | task4-rioyuda02/programs/twitter/src/instructions/add_comment.rs:49-59 | the comment account is created only at the canonical address of (author, hash(content), tweet), so in a consistent store two comments agreeing on those are the same account |
| TwitterAddComment.Padded | task4-rioyuda02/programs/twitter/src/instructions/add_comment.rs:25-27 | the buffer is 500 bytes long, starts with the input and is zero after it |
| TwitterAddComment.PadContent | task4-rioyuda02/programs/twitter/src/instructions/add_comment.rs:25-27 | copying the input into a zeroed 500-byte array produces `Padded(input)` |
| TwitterAddComment.NewComment | task4-rioyuda02/programs/twitter/src/instructions/add_comment.rs:36-39 | the comment is laid out, `content[..content_length]` is the input, and the author, tweet, length and bump are those given |
| TwitterAddComment.AddCommentStep | task4-rioyuda02/programs/twitter/src/instructions/add_comment.rs:6-84 | succeeds iff the tweet exists and is at its own address, the comment key is the canonical address of (author, hash(content), tweet) and free, and the content is at most 500 bytes; then it adds only that comment, which holds the input, and leaves every other account, the tweet included, unchanged |
| TwitterAddComment.AddCommentTooLong | task4-rioyuda02/programs/twitter/src/instructions/add_comment.rs:16-19 | once the accounts pass, the instruction fails with `CommentTooLong` exactly when the content exceeds 500 bytes |
| TwitterAddComment.AddCommentTwiceFails | task4-rioyuda02/programs/twitter/src/instructions/add_comment.rs:49-59 | the same author posting the same content on the same tweet again fails with `AccountAlreadyInUse` |
| TwitterAddComment.ExistingCommentBlocksAdd | task4-rioyuda02/programs/twitter/src/instructions/add_comment.rs:49-59 | in a consistent store where the signer already has a comment on the tweet with a text of the same hash, commenting that text again fails whatever key it names, with `AccountAlreadyInUse` at the existing key when the tweet exists |
| TwitterAddComment.DistinctTextsDistinctAddresses | task4-rioyuda02/programs/twitter/src/instructions/add_comment.rs:53-58 | contents with different hashes get different comment addresses, and the second comment can still be added |
| TwitterAddComment.AddCommentPreserves | task4-rioyuda02/programs/twitter/src/instructions/add_comment.rs:25-39 | `add_comment` keeps the twitter store invariant (reactions and comments at their canonical addresses with the canonical bump stored, comments zero-padded, counters equal to reaction counts) |
| TwitterAddComment.AddComment | task4-rioyuda02/programs/twitter/src/instructions/add_comment.rs:6-84 | reports the transition's outcome and commits all of its writes or none, keeping the invariant |
| TwitterAddReaction.AddToCounter | task4-rioyuda02/programs/twitter/src/instructions/add_reaction.rs:22-31 | the selected counter rises by one and the other counter and fields stay; fails with `MaxLikesReached` exactly when the selected counter is at `u64::MAX` |
| TwitterAddReaction.AddReactionStep | task4-rioyuda02/programs/twitter/src/instructions/add_reaction.rs:6-84 | succeeds iff the tweet exists and is at its own address, the reaction key is the canonical address of (author, tweet) and free, and the selected counter is below `u64::MAX`; then it stores the reaction (kind, author, tweet, bump), raises only the selected counter, and changes nothing else |
| TwitterAddReaction.AddReactionOverflow | task4-rioyuda02/programs/twitter/src/instructions/add_reaction.rs:24-29 | once the accounts pass, the instruction fails exactly on counter overflow, and then with `MaxLikesReached` |
| TwitterAddReaction.ReactTwiceFails | task4-rioyuda02/programs/twitter/src/instructions/add_reaction.rs:51-60 | after a reaction, a second by the same author on the same tweet fails whatever its kind and whatever key it names |
| TwitterAddReaction.ExistingReactionBlocksAdd | task4-rioyuda02/programs/twitter/src/instructions/add_reaction.rs:51-60 | in a consistent store where the signer already holds a reaction of either kind to the tweet, another reaction by the signer fails whatever kind and key it names, with `AccountAlreadyInUse` at the existing key |
| TwitterAddReaction.AddReactionSets | task4-rioyuda02/programs/twitter/src/instructions/add_reaction.rs:40-43 | the new reaction joins exactly the set of its tweet and its kind |
| TwitterAddReaction.AddReactionPreserves | task4-rioyuda02/programs/twitter/src/instructions/add_reaction.rs:22-43 | `add_reaction` keeps the twitter store invariant |
| TwitterAddReaction.AddReaction | task4-rioyuda02/programs/twitter/src/instructions/add_reaction.rs:6-84 | reports the transition's outcome and commits all of its writes or none, keeping the invariant |
| TwitterRemoveReaction.RemoveFromCounter | task4-rioyuda02/programs/twitter/src/instructions/remove_reaction.rs:19-26 | the selected counter falls by one and the other counter and fields stay; fails with `MinLikesReached` exactly when the selected counter is 0 |
| TwitterRemoveReaction.CounterRoundTrip | task4-rioyuda02/programs/twitter/src/instructions/remove_reaction.rs:19-26 | lowering a counter undoes raising it |
| TwitterRemoveReaction.RemoveReactionStep | task4-rioyuda02/programs/twitter/src/instructions/remove_reaction.rs:6-70 | succeeds iff the reaction exists at the address of (signer, tweet) with its stored bump, the tweet exists and is at its own address, and the counter of the stored kind is positive; then it removes the reaction, lowers only that counter, and changes nothing else |
| TwitterRemoveReaction.RemoveWithoutReactionFails | task4-rioyuda02/programs/twitter/src/instructions/remove_reaction.rs:34-49 | with no reaction account there is nothing to remove: `AccountNotInitialized` |
| TwitterRemoveReaction.RemoveOnlyOwnReaction | task4-rioyuda02/programs/twitter/src/instructions/remove_reaction.rs:42-47 | in a consistent store, a removal that succeeds removes a reaction whose stored author is the signer and whose stored tweet is the one named |
| TwitterRemoveReaction.RemoveNeverUnderflows | task4-rioyuda02/programs/twitter/src/instructions/remove_reaction.rs:19-26 | in a consistent store `MinLikesReached` is never raised |
| TwitterRemoveReaction.AddThenRemoveRestores | task4-rioyuda02/programs/twitter/src/instructions/add_reaction.rs:22-31 | `add_reaction` followed by `remove_reaction` by the same author gives back exactly the original store, counters included |
| TwitterRemoveReaction.RemoveReactionSets | task4-rioyuda02/programs/twitter/src/instructions/remove_reaction.rs:34-36 | the closed reaction leaves exactly the set of its tweet and its kind |
| TwitterRemoveReaction.RemoveReactionPreserves | task4-rioyuda02/programs/twitter/src/instructions/remove_reaction.rs:19-36 | `remove_reaction` keeps the twitter store invariant |
| TwitterRemoveReaction.RemoveReaction | task4-rioyuda02/programs/twitter/src/instructions/remove_reaction.rs:6-70 | reports the transition's outcome and commits all of its writes or none, keeping the invariant |

## Left out

- Address derivation is represented by seed tuples. The model does not compute the SHA-256-based address, does not check that an address is off the curve, and does not limit seed length. The canonical bump search and the hash in the comment seed are the functions carried in `TwitterState.Runtime`.
- The instagram addresses carry no bump. Every program account is created at its canonical address by an `init ... bump`, so an address without a bump loses nothing. Only the `init` accounts and `like_account` in `unlike_post` are checked against their seeds. The other accounts (`user_profile` in `create_post` and `delete_post`, `post` in `delete_post`, `like_post` and `unlike_post`) are checked only by kind and `has_one`, as in the code.
- A key missing from the store always yields `AccountNotInitialized`. Anchor raises `AccountOwnedByWrongProgram` instead when the key passed as `post`, `user_profile`, `tweet` or a reaction holds a funded wallet or an account of another program. Only the program's own accounts are in the store.
- Instruction string arguments are arbitrary `Bytes`. The program rejects invalid UTF-8 earlier, with `InstructionDidNotDeserialize`, so the model lets through some inputs that never reach the handler.
- Lamports, rent and the refund on `close` are not modelled. The accounts that pay them (`authority`, `comment_author`, `reaction_author`) and `system_program` appear only as the signer's key.
- `Clock::get()` is not modelled. The timestamp is a parameter of `create_post`.
- `initialize` logs a message and does nothing else, so it is not modelled.
- Only the facts above are taken from the twitter program's `states.rs`. The model uses the fields and constant (`COMMENT_LENGTH` = 500) that these handlers read or write. Its `initialize_tweet` is not part of this model, so the twitter ledger starts from a given store that already satisfies the invariant.
- The twitter accounts' `space` (built from `Comment::LEN` and `Reaction::LEN`) is not modelled. Both records have a fixed size, so they always fit.
- At the exit of `create_post` and `delete_post`, the profile is written back without a space check. Its size never changes after `initialize_user`.
- Signature checks on the `Signer` accounts are not modelled. The signer is a parameter.
- The frontend and the IDL are not modelled. The IDL is used only for the error codes.
- InstagramLedger.Ledger.DeletePost: keeps `LikesMatch` but not `LikesAccounted`, because `delete_post` can leave likes of the deleted post behind (`InstagramInvariants.DeletePostOrphansLikes`).
- TwitterAddReaction.AddReactionOverflow: does not show that a counter can reach `u64::MAX`. Under the invariant that would take 2^64 − 1 reactions.
