# Emoji reactions, VIP slugs and the API-key gate

A Dafny model of the three pieces of the VIP-method backend that compute
something rather than pass data to the database:

- **Emoji reactions** (`routes/Emojis.js`, `models/UserEmojis.js`). The
  `UserEmojis` table is a sequence of rows `{userId, linkId, emojiName, count}`.
  `POST /emoji/:emojiName/react` is a pure transition over that table. It answers
  400 when the body has no linkId or the Authorization header has no token, and
  500 when the token does not verify. It answers 403 when the user's row for the
  link already carries the emoji. Otherwise it switches the user's row to the new
  emoji, or creates one. The two read routes are a lookup of the first row of an
  `(emojiName, linkId)` pair and a listing of every row ordered by count.
- **VIP slugs** (`routes/Vip.js`). `generateSlug` builds a slug from the post
  date and the name. `POST /` gives every created item its slug. `PUT /:id`
  merges the body into the stored record and recomputes the slug when the name
  or the post date is given.
- **The API-key gate** (`Middleware/CheckapiKey.js`). A request passes when the
  `x-api-key` header equals the configured key. It must also have an allowed
  `Origin`, or a `Referer` that starts with an allowed origin.

Modules: `Wrappers` (Option), `JsStrings` (JavaScript truthiness, `split`,
`startsWith`), `UserEmojis` (the table and the Sequelize calls the routes make),
`EmojiRoutes`, `ReactionCounts` (what the `count` column means, see Findings),
`Slug`, `VipRoutes`, `ApiKeyGate`.

Inputs that come from outside the code are parameters:
- Token verification (`jwt.verify`) is `verify: string -> Option<int>`. It gives
  the decoded user id, or `None` when verification throws.
- Date formatting (`new Date(d).toISOString().split('T')[0]`) is
  `formatDate: string -> Option<string>`. It gives the `YYYY-MM-DD` string, or
  `None` when the date is invalid and `toISOString` throws.
- The configured API key (`FRONTEND_API_KEY`) is an `Option<string>`.

Facts about the reaction route that the model keeps:
- A repeated reaction gets 403.
- A token that fails to verify falls into the 500 catch.
- There is no bulk react and no un-react.
- Every row carries its own count, moved by separate `increment`/`decrement` calls.

## Model

| member | source | states |
|---|---|---|
| `UserEmojis.Create` | models/UserEmojis.js:2-19 | a row exists exactly when userId, linkId and emojiName are all given; count is 0 when not supplied |
| `UserEmojis.FindOne` | routes/Emojis.js:49 | `findOne` gives the first row the where clause selects, and none exactly when no row is selected |
| `UserEmojis.Increment` | routes/Emojis.js:57-65 | `increment`/`decrement` with a where clause adds the amount to every selected row; every other row, and every row's owner, link and emoji, stays as it was |
| `UserEmojis.SameKeysKeepOneRowPerOwner` | models/UserEmojis.js:1-19 | the table has no uniqueness constraint; one row per (userId, linkId) survives any change that keeps owners and links in place |
| `EmojiRoutes.BearerToken` | routes/Emojis.js:39 | the token is absent exactly when there is no header or it has no space; a token never holds a space |
| `EmojiRoutes.BearerTokenOfHeader` | routes/Emojis.js:39 | a header `<scheme> <token> ...` gives back exactly `<token>` |
| `JsStrings.Split` | routes/Emojis.js:39 | `split` gives at least one separator-free piece, and joining the pieces gives the string back |
| `JsStrings.SplitJoin` | routes/Emojis.js:39 | splitting joined separator-free pieces gives the pieces back |
| `EmojiRoutes.React` | routes/Emojis.js:36-84 | 400 exactly when linkId is missing or 0 or the token is missing or empty; 500 exactly when the token does not verify; 403 exactly when the user's row carries the same emoji; every answer but 200 leaves the table unchanged; a 200 is the transition of `Apply` for the decoded user |
| `EmojiRoutes.Apply` | routes/Emojis.js:49-79 | first reaction: a new row is appended and every row of (emoji, link), the new one included, gains 1; switch: rows of the old emoji lose 1, rows of the new one gain 1, then the user's row is renamed with one less than it had; 403 leaves the table unchanged |
| `EmojiRoutes.ApplyKeepsOneRowPerOwner` | routes/Emojis.js:49-71 | a reaction never gives a user a second row for the same link |
| `EmojiRoutes.ReactKeepsOneRowPerOwner` | routes/Emojis.js:36-84 | the route keeps the one-row-per-user-and-link rule, whatever it answers |
| `EmojiRoutes.ApplyRecordsEmoji` | routes/Emojis.js:67-71 | after a 200 the user's row for the link carries the requested emoji |
| `EmojiRoutes.ForbiddenIffSameEmoji` | routes/Emojis.js:49-54 | with one row per user and link, 403 is answered exactly when the user already holds a row with this link and emoji |
| `EmojiRoutes.ApplyLeavesOtherRows` | routes/Emojis.js:56-76 | rows of other links, and rows of emojis other than the old and new one, are unchanged |
| `EmojiRoutes.LookupEmoji` | routes/Emojis.js:8-19 | 404 exactly when no row has the (emoji, link); otherwise the count of the first such row |
| `EmojiRoutes.ListAll` | routes/Emojis.js:22-33 | every row's (emojiName, count, linkId), each exactly once, ordered by count, non-increasing |
| `ReactionCounts.AsWrittenSwitchMiscounts` | routes/Emojis.js:56-68 | a react then a switch leaves the new emoji's lookup at 0 with one reactor, and a switch back leaves it at -1 |
| `ReactionCounts.AsWrittenSameEmojiRowsDisagree` | routes/Emojis.js:72-77 | two users reacting with the same emoji leave that pair's rows at counts 2 and 1 |
| `ReactionCounts.ApplyIntended` | routes/Emojis.js:49-77 | the corrected transition answers as the route does and changes the same rows' owners, links and emojis |
| `ReactionCounts.IntendedKeepsCountsExact` | routes/Emojis.js:56-76 | under the corrected transition every row's count stays equal to the number of rows of its (emoji, link) |
| `ReactionCounts.IntendedKeepsOneRowPerOwner` | routes/Emojis.js:49-77 | the corrected transition also never gives a user a second row for a link |
| `ReactionCounts.ExactCountsLookup` | routes/Emojis.js:12-15 | on exact counts the lookup reports the number of rows of the pair, and 404 when there are none |
| `ReactionCounts.IntendedScenario` | routes/Emojis.js:49-77 | corrected: first reaction counts 1, the same emoji again is refused unchanged, a switch moves the count from one emoji to the other |
| `Slug.LowerChar` | routes/Vip.js:10 | lower-casing turns each of A-Z into the letter at the same place in a-z and leaves every other character alone |
| `Slug.Collapse` | routes/Vip.js:11 | the result holds only `[a-z0-9-]` with no two hyphens in a row, is empty exactly when the input is, starts with a hyphen exactly when the input starts outside `[a-z0-9]`, and keeps the letters and digits in order |
| `Slug.RunFront` | routes/Vip.js:11 | a leading run of non-`[a-z0-9]` characters becomes one hyphen, and the words after it are those of the text after the run |
| `Slug.CollapseWords` | routes/Vip.js:11 | on text that starts with a letter or digit, the result is its runs of letters and digits joined by single hyphens, plus one hyphen when the text ends in a run of other characters |
| `Slug.TrimHyphens` | routes/Vip.js:12 | the input is the result with its leading hyphen, if it had one, put back in front and its trailing hyphen, if it had a second one there, put back behind; on text with single hyphens the result is a well-formed name; letters and digits are kept |
| `Slug.FormatName` | routes/Vip.js:9-12 | the name part holds only `[a-z0-9-]`, no two hyphens in a row, no hyphen at either end, and the lowered name's letters and digits in order |
| `Slug.FormatNameIsJoinedWords` | routes/Vip.js:9-12 | the name part is exactly the runs of letters and digits of the lowered name joined by single hyphens |
| `Slug.FormatNameSplitsIntoWords` | routes/Vip.js:9-12 | splitting the name part on hyphens gives back those runs; a name with no letter or digit gives one empty part |
| `Slug.FormatNameFixedPoints` | routes/Vip.js:9-12 | formatting leaves a name unchanged exactly when it is well formed |
| `Slug.FormatNameIdempotent` | routes/Vip.js:9-12 | formatting a formatted name returns it unchanged |
| `Slug.GenerateSlug` | routes/Vip.js:6-14 | a slug exists exactly when the date formats and the name is given; it is the date, one hyphen, and the lowered name's runs of letters and digits joined by single hyphens |
| `Slug.SlugNamePart` | routes/Vip.js:13 | on one date two names give the same slug exactly when they format alike |
| `VipRoutes.PrepareCreate` | routes/Vip.js:17-35 | an array keeps its length and order and every item gets the slug of its own date and name, other fields untouched; a single item likewise; 500 exactly when some item's slug throws |
| `VipRoutes.Update` | routes/Vip.js:80-108 | 404 exactly when the record is missing; name and link always overwritten; createdAt always kept; postDate kept when falsy; slug recomputed only when name or postDate is truthy, and then consistent with the new date and name; 500 exactly when that recompute throws |
| `VipRoutes.PostDateWithoutNameFails` | routes/Vip.js:90-101 | a truthy postDate without a name fails, because the name fallback reads the overwritten field |
| `VipRoutes.UpdateIdempotent` | routes/Vip.js:90-101 | sending the same body again to the updated record changes nothing |
| `JsStrings.StartsWith` | Middleware/CheckapiKey.js:15 | `startsWith` holds exactly when the pattern is a prefix |
| `ApiKeyGate.Includes` | Middleware/CheckapiKey.js:14 | `includes` holds exactly when the value is present and in the list |
| `ApiKeyGate.SomePrefixOf` | Middleware/CheckapiKey.js:15 | `some(startsWith)` holds exactly when the referer is present and some entry is its prefix |
| `ApiKeyGate.CheckApiKey` | Middleware/CheckapiKey.js:2-22 | passes exactly when the key equals the configured one and the origin is listed or the referer starts with a listed origin |
| `ApiKeyGate.WrongKeyRefused` | Middleware/CheckapiKey.js:5-18 | a key unequal to the configured one is refused |
| `ApiKeyGate.UnknownOriginRefused` | Middleware/CheckapiKey.js:13-18 | with an unlisted origin and a referer starting with no listed origin the request is refused |
| `ApiKeyGate.AllowedOriginPasses` | Middleware/CheckapiKey.js:14-21 | a matching key with a listed origin passes |
| `ApiKeyGate.RefererPrefixPasses` | Middleware/CheckapiKey.js:15 | a matching key passes on a referer that merely starts with a listed origin, with no Origin header |
| `ApiKeyGate.MissingKeyMatchesUnsetKey` | Middleware/CheckapiKey.js:5-17 | no key header and no configured key compare equal |

## Findings

| source | as written | input that shows it | evidently intended | confidence | as-written member | corrected member |
|---|---|---|---|---|---|---|
| routes/Emojis.js:56-76 | a switch decrements the user's own row with the old emoji's group and renames it without incrementing it, so the row carries a stale counter into the new group | empty table; user 1 reacts to link 42 with `a`, then with `b`: the lookup for `(b, 42)` answers 0 while one row holds `b`; switching back to `a` answers -1 | the count read back for an (emoji, link) is the number of users whose current reaction it is, and is never negative | medium, not executed | `ReactionCounts.AsWrittenSwitchMiscounts` | `ReactionCounts.IntendedKeepsCountsExact` |
| routes/Emojis.js:72-77 | a first reaction creates its row at 0 and then increments every row of the pair, so the new row counts 1 however many users already hold the pair, and the rows of the pair disagree | empty table; user 1, then user 2, react to link 42 with `e`: the rows of `(e, 42)` hold 2 and 1, and `findOne`, which names no order, may report either | every row of a pair reports the number of users whose current reaction it is | medium, not executed | `ReactionCounts.AsWrittenSameEmojiRowsDisagree` | `ReactionCounts.IntendedKeepsCountsExact` |

`EmojiRoutes.Apply` stays as written, because it is what the route does.
`ReactionCounts.ApplyIntended` is the corrected transition. It gives a new
row the group's current size before incrementing the group. On a switch it
gives the moved row the new group's size. It answers as the route does and
changes the same rows' keys. `ReactionCounts.ExactCountsLookup` states what
the lookup then reports.

## Left out

- Concurrency and atomicity. The route makes separate `findOne`, `create`, `increment`, `decrement` and `save` calls with no transaction. The model runs them in sequence and claims nothing about interleavings or rollback.
- Database and I/O failures. Any store error ends in the same 500 catch. Only the token failure (500) and the slug failures are modelled as error answers.
- JWT verification and the token secret. `verify` is a parameter. The token's content (a decoded id that is missing or not an integer) is folded into `verify` returning `None`.
- Date parsing. `formatDate` is a parameter. `new Date(null)` is the epoch, not an invalid date, but an absent postDate here stands for `undefined`, which is invalid.
- Slug.LowerChar: only ASCII A-Z is lower-cased. JavaScript `toLowerCase` also maps U+0130 to `i` plus a combining dot, and U+212A to `k`. Those two characters would then contribute a letter to the slug, and the model does not follow that.
- EmojiRoutes.React: linkId is an integer or absent. A truthy non-numeric linkId fails in the database with 500, and that is not modelled.
- VipRoutes.PrepareCreate and VipRoutes.Update: a name is a string or absent. A truthy non-string name throws on `toLowerCase`, and that is not modelled.
- VipRoutes.Update: the assignment to `createdAt` at routes/Vip.js:92 is modelled as having no effect. The model of the `Vip` record (models/Vip.js) keeps Sequelize's default timestamps, and Sequelize ignores an assignment to the `createdAt` timestamp of a stored record. This rests on the ORM's behaviour, not on a line of the route.
- VipRoutes.Update: the result is the record handed to `save()`. The ORM's own validation at save time (not-null `name` and `link`) is not modelled.
- UserEmojis.Increment: the `count` column is a 32-bit INTEGER, so the database would reject an overflow. The model's counts are unbounded.
- EmojiRoutes.LookupEmoji: `findOne` at routes/Emojis.js:12 names no order, so the database may answer with any selected row. The model always takes the first in table order. On the as-written table the rows of a pair can disagree (see Findings), so the real lookup may report another row's count. UserEmojis.FindOne makes the same choice for the `findOne` at routes/Emojis.js:49; under the one-row rule that clause selects at most one row, so there the choice changes nothing.
- EmojiRoutes.ListAll: the database gives no order among rows of equal count. The model fixes one order, and its contract allows any.
- The row timestamps (`createdAt`, `updatedAt`) of `UserEmojis`, and the JSON bodies of the answers beyond their status: the react route's 200 body `{ success: true }` is not modelled.
- The other VIP routes (`GET /:slug`, `GET /`, `GET /:id`, `DELETE /:id`, routes/Vip.js:40-77 and 112-125). They are single store calls. `GET /:id` is shadowed by `GET /:slug`, which is Express routing, not logic.
- routes/Free.js, routes/user.js (bcrypt, JWT signing, Stripe), the migrations, the seeds and the other model definitions. They are database plumbing or configuration with no logic of their own.
