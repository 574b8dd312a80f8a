# Blog client core, modelled in Dafny

The repository is a React blog client for a small "investor" community. Its
state lives in a hosted document store with three collections: `articles`,
`users` and `comments`. This project models the sequential logic around that
store and proves properties of it:

- **Article repository** (`article_service.dfy`). The like toggle reads
  `likes`/`likedBy` (missing fields read as `0`/`[]`). It then either filters
  the user out and decrements the count, or appends the user and increments
  it. Around it sit creation with owner/author/count stamps, lookup by id
  (fails on an absent id), deletion, and two queries: articles liked by a user
  and articles owned by a user.
- **Account repository** (`user_service.dfy`). Registration refuses an email
  already in use and otherwise appends a non-admin account whose avatar is the
  avatar-service URL followed by the pseudo. Login returns the first account
  with exactly this email and password. Lookup by id returns the account or
  nothing.
- **Comment repository** (`comment_service.dfy`). It appends a comment, and
  fetches one article's comments newest first.
- **Session manager** (`auth_context.dfy`). It holds `user`, `loading` and the
  persisted `userId` slot. It offers signup, login, logout, the start-up
  restore, and the derived `isAdmin`.
- **Detail page** (`post_detail.dfy`). It loads the article and its comments,
  applies the optimistic like before the service call (with no rollback),
  guards and sequences comment submission, and holds the delete permission
  and the like button's display.
- **Home page search** (`home.dfy`). A case-insensitive substring match on
  title or content.

The store is `DocumentStore.Collection`: a class whose `docs` field maps
document ids to records. `nextId` is the next id the store will hand out, and
`Valid()` says every stored id lies below it. A query returns its matches in
ascending id order; this stands for the store's default order when a query has
no `orderBy`. Every store call that can fail takes a `fault` parameter that
stands for a failure of the store or the network. For the operations that
throw, the result is a `Result`/`Outcome` value, with `StoreFailure` for such
a failure. Clock readings (`Timestamp.now()`, `new Date().toISOString()`) are
parameters. JavaScript's missing fields and `NaN` are written out explicitly:
`Numeric` covers absent, a number, or NaN, and `Option` covers an absent list
or flag.

Two behaviours of the code the model keeps:

- The detail page's optimistic like is never rolled back when the toggle fails.
- `likedBy` is an array (a sequence), not a set, so duplicates are possible
  unless a precondition excludes them.

## Model

| member | source | states |
|---|---|---|
| DocumentStore.Collection.Where | src/services/articleService.js:124-133 | a query returns exactly the stored documents whose record satisfies the filter, each with its own id, in ascending id order |
| DocumentStore.Collection.Add | src/services/userService.js:29 | `addDoc` stores the record under an id not used before and changes no other document |
| DocumentStore.Collection.Update | src/services/articleService.js:87-96 | `transaction.update` replaces the record of one existing id and changes no other document |
| DocumentStore.Collection.Delete | src/services/articleService.js:110-111 | `deleteDoc` removes exactly the given id |
| ArticleService.Without | src/services/articleService.js:89 | `filter(id => id !== u)` removes every occurrence of `u`, keeps every other id, and shortens the list by the number of occurrences |
| ArticleService.Toggle | src/services/articleService.js:81-96 | the record the transaction writes: only `likes` and `likedBy` change, the user's membership flips, and the count moves by exactly one in the direction of the flip (`Likes` and `LikedBy` read missing fields as 0 and [], as lines 82-83 do) |
| ArticleService.ToggleShape | src/services/articleService.js:85-96 | a liker is filtered out, a non-liker is appended at the end, both fields are then present, and no other user's membership changes |
| ArticleService.ToggleKeepsConsistency | src/services/articleService.js:85-96 | on a duplicate-free `likedBy` a toggle keeps it duplicate-free and keeps the count minus the list's length, so it preserves "count equals the number of likers" |
| ArticleService.ToggleTwice | src/services/articleService.js:85-96 | two toggles by one user restore the count and every membership, change no other field, and restore the exact `likedBy` when the user had not liked |
| ArticleService.TogglesByParity | src/services/articleService.js:85-96 | after `n` toggles by one user the membership and count are back when `n` is even, and flipped and moved by one when `n` is odd |
| ArticleService.EvenTogglesRestore | src/services/articleService.js:85-96 | an even number of toggles restores the user's membership and the count |
| ArticleService.TogglesKeepOthers | src/services/articleService.js:85-96 | any number of toggles by one user never changes another user's membership |
| ArticleService.ScenarioLikeThenUnlike | src/services/articleService.js:85-96 | on `likes = 5, likedBy = [u9]`, a like by `u1` gives 6 with both users, and an unlike gives back 5 and `[u9]` |
| ArticleService.Stamp | src/services/articleService.js:57-63 | the stored record keeps the submitted title, content, category, image and `likedBy`, and the stamps `userId`, `author`, `likes: 0` and `createdAt` win over submitted fields |
| ArticleService.NewArticleConsistent | src/services/articleService.js:57-63 | an article submitted without a liked-by list starts with a count equal to the number of likers |
| ArticleService.FetchArticleById | src/services/articleService.js:36-50 | returns the stored article with its id exactly when the id is present; otherwise fails with not-found, or with the store failure |
| ArticleService.CreateArticle | src/services/articleService.js:55-68 | adds exactly one stamped record under a fresh id and hands out one id; a failure changes nothing |
| ArticleService.ToggleLike | src/services/articleService.js:73-103 | fails on an absent id or a failed transaction and then leaves the collection unchanged; otherwise replaces only that article by `Toggle` of it, and flips the article's presence in the user's liked list |
| ArticleService.DeleteArticle | src/services/articleService.js:108-116 | removes only the given id; a failure changes nothing |
| ArticleService.FetchLikedArticlesByUser | src/services/articleService.js:121-138 | exactly the stored articles whose `likedBy` contains the user, in store order; `[]` on a failure |
| ArticleService.FetchArticlesByAuthor | src/services/articleService.js:140-156 | exactly the stored articles whose `userId` is the user, in store order; `[]` on a failure |
| UserService.AvatarFor | src/services/userService.js:25 | the avatar is the dicebear URL prefix followed by the pseudo |
| UserService.AvatarDeterminesPseudo | src/services/userService.js:25 | two avatars are equal exactly when the pseudos are equal |
| UserService.NewAccount | src/services/userService.js:20-27 | the new record carries the given email, password and pseudo, `isAdmin = false`, the derived avatar and the creation time |
| UserService.EmailInUse | src/services/userService.js:12-15 | the duplicate check holds exactly when some stored account has this email |
| UserService.LoginUser | src/services/userService.js:41-61 | succeeds exactly when some stored account has exactly this email and password (`Matches`, the two `where` clauses of lines 45-46), and returns the stored account of least id among them with its id; fails with invalid credentials otherwise, or with the store failure; reads the table only |
| UserService.GetUserById | src/services/userService.js:66-78 | returns the account with its id exactly when the id is present and the lookup does not fail; otherwise nothing |
| UserService.RegisterUser | src/services/userService.js:9-36 | fails with a duplicate-email error exactly when the email is in use, and then adds nothing; otherwise adds exactly one new account under a fresh id and returns it with that id; keeps emails unique; one id is handed out; after success, login with the same email and password returns that account |
| CommentService.InsertByDate | src/services/commentService.js:18 | inserting into a newest-first list keeps it newest first and adds exactly that comment |
| CommentService.SortNewestFirst | src/services/commentService.js:18 | `orderBy("createdAt", "desc")`: the same comments, newest first (equal times by descending id) |
| CommentService.ArticleComments | src/services/commentService.js:15-25 | exactly the stored comments of the article, each with its id and each once (no two entries share an id), newest first |
| CommentService.FetchCommentsByArticleId | src/services/commentService.js:11-31 | exactly the stored comments whose `articleId` matches, each once, newest first; `[]` on a failure |
| CommentService.NewestFirstUnique | src/services/commentService.js:18 | the newest-first order without repeated ids is determined by the members: two such sequences with the same members are equal |
| CommentService.ThreeCommentsNewestFirst | src/services/commentService.js:15-19 | three comments of one article with timestamps t1 < t2 < t3 come back in the order t3, t2, t1 |
| CommentService.NewestComesFirst | src/services/commentService.js:18 | in a newest-first list a comment strictly newer than all others is at the head |
| CommentService.LatestCommentFirst | src/services/commentService.js:15-47 | a comment added under the next id with a timestamp later than every other comment of its article is the first one the article's fetch returns |
| CommentService.AddComment | src/services/commentService.js:39-52 | stores exactly `articleId`, `user`, `avatar`, `text` and `createdAt = now` under the next id; a failure adds nothing |
| AuthContext.AuthProvider.constructor | src/context/AuthContext.jsx:9-10 | the initial state: no user, loading, the persisted slot as found |
| AuthContext.AuthProvider.Signup | src/context/AuthContext.jsx:13-18 | on success the new account becomes the user, its id is persisted, one id is handed out, and `IsAdmin` (line 51, `user?.isAdmin === true`) is false; a failure propagates the repository's error unchanged (a store failure, otherwise a duplicate email) and leaves user, slot and accounts unchanged |
| AuthContext.AuthProvider.Login | src/context/AuthContext.jsx:21-26 | returns the repository's login result; on success the account becomes the user and its id is persisted; a failure leaves both unchanged; the accounts are not modified |
| AuthContext.AuthProvider.Logout | src/context/AuthContext.jsx:29-32 | no user, an empty slot, hence `IsAdmin` is false |
| AuthContext.AuthProvider.CheckSession | src/context/AuthContext.jsx:35-47 | a persisted id that resolves becomes the user; one that does not is removed and the user is untouched; with no persisted id there is no lookup; loading ends in every case, so `RendersChildren` (line 55, `!loading && children`) holds afterwards |
| AuthContext.SignupThenReload | src/context/AuthContext.jsx:13-47 | after a successful signup a fresh provider started from the persisted slot restores the same account |
| PostDetail.AddNumber | src/pages/PostDetail.jsx:41 | JavaScript `x ± 1` on the count: a number moves by one, and an absent count or NaN gives NaN |
| PostDetail.OptimisticFlip | src/pages/PostDetail.jsx:37-45 | the local updater changes only `likes` and `likedBy`, flips the user's membership, keeps every other user's, and adds ±1 to the raw count, with no default of 0 |
| PostDetail.OptimisticFlipMatchesToggle | src/pages/PostDetail.jsx:37-45 | with a defined count the local flip equals the record the toggle transaction writes |
| PostDetail.MissingCountDiverges | src/pages/PostDetail.jsx:41 | with no stored count the page holds NaN and shows `likes` or 0 (`Likes`), that is 0, while the store writes ±1 |
| PostDetail.FlipShowsToggle | src/pages/PostDetail.jsx:146-153 | after a click with a defined count the shown liked state (`ShowsLiked`, line 146's `likedBy?.includes(user?.id)`) flips and the shown count (`Likes`, line 153's `likes` or 0) moves by one in the same direction |
| PostDetail.CanDeleteInSession | src/pages/PostDetail.jsx:78 | `CanDelete`, line 78's permission, evaluated with the session's own `isAdmin`: delete is offered exactly to a logged-in owner of the article or to a logged-in account whose stored flag is exactly `true` |
| PostDetail.DetailPage.constructor | src/pages/PostDetail.jsx:13-16 | the initial page state: no article, no comments, empty input, loading |
| PostDetail.DetailPage.Load | src/pages/PostDetail.jsx:18-32 | a found article and then its fetched comments are shown; a failed article fetch leaves both as they were; loading ends in every case |
| PostDetail.DetailPage.HandleLike | src/pages/PostDetail.jsx:34-48 | with no user nothing changes and no toggle is issued; otherwise the local flip is applied and then the toggle runs; a failed toggle keeps the local flip (no rollback); after success with a defined count, a local copy equal to the stored one stays equal to it; no id is handed out |
| PostDetail.DetailPage.HandleCommentSubmit | src/pages/PostDetail.jsx:57-68 | with no user or an empty text nothing is added; otherwise one comment with the user's pseudo and avatar is added under the next id, the list is replaced by a fresh fetch and the input cleared; a failed add leaves the page and the store as they were |
| Home.Lower | src/pages/Home.jsx:57-58 | `toLowerCase` keeps the length and lower-cases each character |
| Home.LowerIdempotent | src/pages/Home.jsx:57-58 | lower-casing twice is lower-casing once |
| Home.IncludesAt | src/pages/Home.jsx:57-58 | `Includes`, the model of `includes`, holds exactly when the term starts at some position of the text |
| Home.IncludesTransitive | src/pages/Home.jsx:57-58 | a substring of a substring is a substring |
| Home.LowerKeepsIncludes | src/pages/Home.jsx:57-58 | lower-casing both sides keeps a substring relation |
| Home.FilterArticles | src/pages/Home.jsx:56-59 | an article is kept exactly when its lower-cased title or content contains the lower-cased term (`MatchesSearch`), and the result is an order-preserving subsequence of the input |
| Home.EmptyTermKeepsAll | src/pages/Home.jsx:56-59 | an empty search keeps every article |
| Home.FilterIgnoresCase | src/pages/Home.jsx:57-58 | terms with the same lower-cased form give the same result |
| Home.FilterSameForLowerTerm | src/pages/Home.jsx:57-58 | a term and its lower-cased form give the same result |
| Home.FilterIdempotent | src/pages/Home.jsx:56-59 | filtering twice with the same term is filtering once |
| Home.NarrowerTerm | src/pages/Home.jsx:56-59 | when one term contains another, the longer term keeps no article the shorter one drops |

## Left out

- The store's internals are not modelled: transaction conflict retries, indexes, listeners, server timestamps. A transaction is one atomic step.
- Document ids are a counter, and ascending id order stands for the store's order of a query without `orderBy`. Real ids are random strings.
- Spreading a record that itself holds a field named `id` (`{ id: doc.id, ...doc.data() }`) would override the document id. Records in the model have no such field.
- Concurrency is not modelled: the window between the email check and the insert in registration, toggles from several sessions at once, and `Promise.all` on the profile page. Every operation runs alone.
- Failures of the store or the network are a `fault` parameter. The model does not say when they happen.
- `fetchAllArticles` and its use on the home page are not modelled: it returns every stored document, which `DocumentStore.Collection.Where` with a filter that keeps everything covers.
- The detail page's `handleDelete` (a confirmation dialog, then `deleteArticle`, then navigation) is not modelled. Its store effect is `ArticleService.DeleteArticle`.
- Alerts, `console.error`, navigation and rendering are not modelled. Neither are the pages that only render or hold form state (create-post, login, signup, admin-seed, profile, the navigation bar, the routing).
- The home page's market ticker (floating-point prices, randomness, an interval timer) is not part of this model.
- The date formatter is not part of this model. It relies on the platform's date and locale formatting, and shows "Date inconnue" for a missing date.
- The seeding script is not modelled. It writes random `likes` with an empty `likedBy`, so "count equals the number of likers" is not a global invariant. `ArticleService.ToggleKeepsConsistency` therefore takes the invariant as a hypothesis.
- `Home.Lower` lower-cases ASCII letters only, not the full Unicode case mapping of `toLowerCase`.
- The browser's `localStorage` is a single optional slot of the session manager.
- Passwords are stored and compared as plain strings, as the code does. The model makes no security claim.
- `PostDetail.DetailPage.HandleLike` computes the membership test on the page's current article, which is also the updater's `prev`, because each handler runs alone.
- `CommentService.AddComment` does not restate the article's fetch after the insert. That fact is `CommentService.LatestCommentFirst`, with the comment at the next id.
