# Chat server rooms and presence, in Dafny

This project models the server of a small web chat (`server.js`). The server
keeps three maps:

- `rooms`: each room's message log.
- `typing`: each room's users, with a flag saying whether they are typing.
- `lastActive`: each room's users, with the time they were last active.

The model has one method per request handler and one for the idle sweep. It
also models `formatMessage`, the text transform applied to the text of a
`/send` post (server.js:126): HTML escaping, emote substitution and URL
linkification. Notices store the user name as given (server.js:102, 114,
185), and image posts are stored without formatting (server.js:165).

- `markup.dfy` (module `Markup`): functions for `escapeHTML` and
  `formatMessage`, with lemmas about them.
  - The global regular-expression replacements become `ReplaceAll`, a
    left-to-right scan that does not overlap matches.
  - `/(https?:\/\/[^\s]+)/g` becomes `Linkify`, a scanner written out by
    hand. Its space test is JavaScript's `\s` class.
- `chat.dfy` (module `Chat`): the state as the class `ChatServer`, with the
  fields `rooms`, `typing` and `lastActive`.
  - `AddMessage` is the bounded log.
  - There is one method per route: `CreateRoom`, `Messages`, `Join`,
    `Leave`, `Send`, `SetTyping`, and the part of `Upload` that changes
    state.
  - `Sweep` is the body of the idle-sweep timer callback.
  - Every method keeps the invariant `Valid()`:
    - The three maps have the same rooms.
    - No log is longer than `MAX_MESSAGES`.
    - In each room, a user has a typing flag exactly when they have an
      activity time.
  - Every method states the exact new contents of all three maps.
  - The log and listing behaviour is specified by value-level functions,
    with lemmas about them: `Push`, `PushAll`, `Newest`, `MarkAll`, `Idle`
    and `IdleNotices`.
- `scenarios.dfy` (module `Scenarios`): two request sequences on a fresh
  server, with their outcomes proved.

What the environment supplies becomes a parameter:

- `Date.now()` becomes `now: int`.
- `timestamp()` becomes an opaque label `stamp: string`.
- The result of the upload's image re-encoding becomes `stored: Option<string>`.
  It holds the output file name, or `None` when `sharp` or `fs.unlinkSync`
  threw.
- A request field is `Option<string>`:
  - `Given` is JavaScript truthiness: present and not empty.
  - `Key` is the property name the field selects. An absent field selects
    `"undefined"`.

`server.js` does not have these behaviours, and the model follows
`server.js`:

- Creating a room that already exists is not an `AlreadyExists` error. It
  answers 200 and changes nothing.
- `Join` does not suppress repeated entry notices. Every successful call
  appends one.
- Only `/create-room` creates rooms. `/join`, `/leave`, `/send`, `/typing`
  and `/upload` answer 400 for an unknown room, and `/messages` answers `[]`.
- There is no content filter.
- The sweep does not go through the leave path. Its notice reads
  " has been idle and left.", and it deletes the two presence entries
  itself.

Two quirks of the code are reproduced and proved:

- The message listing permanently sets `typing` on stored posts whose author
  is typing at that moment (`MarkAllMeaning`, `Messages`).
- Escaping runs before emote substitution, so `">)"` is shown as `"&gt"`
  followed by the wink image (`EscapedAngleBecomesWink`).

## Model

| member | source | states |
|---|---|---|
| Chat.PushFifo | server.js:36-40 | `Push` is `addMessage` on one log. Pushing onto a log of at most 100 entries keeps the bound and puts the new message last. Below the bound it only appends; at the bound it drops exactly the oldest entry and keeps the rest in order. |
| Chat.PushAllKeepsNewest | server.js:36-40 | After any sequence of pushes, the log is exactly the newest 100 of everything appended, oldest first. |
| Chat.ChatServer.AddMessage | server.js:36-40 | A known room's log becomes `Push` of its old log. An unknown room, and the other two maps, are unchanged. |
| Chat.ChatServer.constructor | server.js:18-20 | The server starts with three empty maps, and `Valid()` holds. |
| Chat.ChatServer.OpenRoom | server.js:77-79 | A new room gets an empty log and empty typing and activity maps. |
| Chat.ChatServer.Touch | server.js:103-104 | Sets one user's typing flag and activity time in one room together, so the two key sets stay equal. Nothing else changes. |
| Chat.ChatServer.Forget | server.js:115-116 | Deletes one user's typing flag and activity time in one room together. Nothing else changes. |
| Chat.ChatServer.CreateRoom | server.js:74-83 | Always answers 200. An existing name, including the key `"undefined"` of an absent name, leaves all three maps unchanged. A new name gets empty presence maps and a log of exactly one "Chat room created." notice (`CreatedNotice`, server.js:80). |
| Chat.ChatServer.Messages | server.js:86-94 | An unknown room returns `[]` and changes nothing. Otherwise it returns `MarkAll` of the stored log under the room's typing flags, and stores that result back as the log. |
| Chat.MarkAllMeaning | server.js:89-92 | `Mark` is the loop body on one entry and `MarkAll` the whole loop. The listing has the log's length and keeps each entry's kind, text and author in place. A post is flagged afterwards if and only if it was flagged before or its author is typing now. |
| Chat.MarkAllIdempotent | server.js:89-92 | Listing twice with the same typing flags stores the same log as listing once. |
| Chat.ChatServer.Join | server.js:97-106 | Answers 400 with no change when the room or user is missing or empty, or the room is unknown. Otherwise it answers 200, pushes one entry notice (`EnteredNotice`, server.js:102) on every call, sets typing to false and sets the activity time to `now`. |
| Chat.ChatServer.Leave | server.js:109-118 | Has the same 400 cases as `Join`. Otherwise it pushes one departure notice (`LeftNotice`, server.js:114), even for a user who never joined, and deletes the user's typing and activity entries. |
| Chat.ChatServer.Send | server.js:121-130 | Answers 400 with no change when the room, user or text is missing or empty, or the room is unknown. Otherwise it pushes one post by that user (`TextPost`, server.js:126) whose text is the label and `FormatMessage(text)`. It also sets the activity time to `now` and typing to false. |
| Chat.ChatServer.SetTyping | server.js:133-141 | Has the same 400 cases as `Join`. Otherwise it sets the typing flag to the submitted truth value and the activity time to `now`. No log changes in either case. |
| Chat.ChatServer.Upload | server.js:144-177 | Answers 400 with no change without a room, a user or an accepted image file, or for an unknown room. It answers 500 with no change when re-encoding failed. Otherwise it redirects, pushes one image post (`ImagePost`, server.js:162-166) linking `/uploads/<name>` with no formatting, sets the activity time to `now` and sets typing to false. |
| Chat.IdleGrows | server.js:184 | `Idle` is the set of users whose last activity is more than 30000 before `now`. Whoever is idle at some time is still idle at any later time. |
| Chat.TouchedNotIdle | server.js:103-104 | A user whose activity time was just set to `now` is not idle at `now`. Every other user is idle exactly as before. |
| Chat.IdleNotices | server.js:185 | One "has been idle and left." notice (`IdleNotice`) per evicted user, in eviction order. |
| Chat.EvictIdle | server.js:183-189 | The inner loop over a room's users. Every user idle at `now` is evicted exactly once, in the visit order it returns, with one notice each pushed in that order. Every other user keeps both presence entries. |
| Chat.ChatServer.SweepRoom | server.js:182-189 | One room swept as `EvictIdle` says. The other rooms are unchanged. |
| Chat.ChatServer.Sweep | server.js:180-191 | Every room is swept as `EvictIdle` says, `Valid()` is kept, and afterwards nobody in any room is idle at `now`. |
| Chat.NoneIdleAfterEviction | server.js:184-187 | After the idle users are evicted, nobody left is idle at the same `now`. |
| Chat.SecondSweepAppendsNothing | server.js:184-188 | A second eviction pass at the same `now` visits nobody and leaves the log unchanged. |
| Chat.OrderingOfNothing | server.js:183-184 | A visit order of a room without idle users is empty. |
| Chat.SweptRoomHasNoIdle | server.js:184-187 | A room swept at `now` has no idle user left. |
| Markup.ReplaceAll | server.js:43-51 | Global replacement of a literal pattern. Text without the pattern's first character is returned unchanged. A one-character pattern absent from the replacement is absent from the result. |
| Markup.ReplaceAfterPlainPrefix | server.js:48-51 | A prefix without the pattern's first character passes through the replacement untouched. |
| Markup.ReplaceKeepsAbsent | server.js:43 | A character absent from both the text and the replacement is absent from the result. |
| Markup.EscapeHTML | server.js:42-44 | The result contains no `<` and no `>`. Text without `&`, `<` and `>` is returned unchanged. |
| Markup.EscapeHTMLIsEscapeEach | server.js:42-44 | The three chained replacements equal replacing each character independently: `&` by `&amp;`, `<` by `&lt;`, `>` by `&gt;`. |
| Markup.EscapeRoundTrip | server.js:42-44 | Escaping loses nothing: unescaping the three entities recovers the original text. |
| Markup.NonSpaceRun | server.js:52 | The longest prefix without JavaScript white space (`[^\s]+`). |
| Markup.UrlLength | server.js:52 | The length of the `https?://[^\s]+` match at the start of the text, or 0. It never exceeds the text, and a match contains `:`. A match exists exactly when the text starts with `http://` or `https://` followed by a character that is not white space. A match holds no white space and runs to the end of the text or to the first white space, so its length is fixed. |
| Markup.Linkify | server.js:52-55 | Text with no `:` holds no URL and is returned unchanged. |
| Markup.LinkifyPlainPrefix | server.js:52-55 | A prefix with no `h` cannot start a URL, so it passes through linkification unchanged and the rest is linkified on its own. |
| Markup.LinkifyUrlThenRest | server.js:52-55 | A URL followed by white space becomes its anchor (`Anchor`), and the text from the white space on is linkified on its own. |
| Markup.LinkifyWholeUrl | server.js:52-55 | A message that is a single URL with no white space becomes one anchor (`Anchor`, classified by `IsImageUrl`) over the whole URL: an image link for `.jpg`, `.jpeg`, `.png` or `.gif` in any letter case, otherwise a plain link. |
| Markup.EmotesIsEmoteEach | server.js:48-51 | The four emote replacements in sequence equal one left-to-right pass (`EmoteEach`) that turns each `:)`, `:(`, `;)` and `:D` into its image and copies every other character. |
| Markup.FormatMessageIsEach | server.js:46-57 | `formatMessage` equals escaping each character on its own, then the single emote pass, then linkification. |
| Markup.FormatPlain | server.js:46-57 | Text without `&`, `<`, `>`, `:` and `;` is stored verbatim. |
| Markup.WinkAfterPlainText | server.js:48-51 | `;)` after text without `:` or `;` becomes the wink image, and nothing else changes. |
| Markup.EscapeAngleParen | server.js:42-47 | `">)"` escapes to `"&gt;)"`. |
| Markup.EscapedAngleBecomesWink | server.js:47-50 | `formatMessage(">)")` is `"&gt"` followed by the wink image, because the `;` that ends the entity combines with `)`. |
| Scenarios.CreateTwice | server.js:74-94 | Creating the same room twice answers 200 to the first and to the second request. The listing is just the first creation notice. |
| Scenarios.UnknownRoom | server.js:86-124 | On a fresh server, join and send to any room answer 400, and its listing is empty. |

## Left out

- Express routing, body parsing, static file serving and `res.*`: a handler's
  HTTP answer is the `Status` it returns (`Ok`, `BadRequest`, `Redirect`,
  `ServerError`).
- Request fields that are not strings, such as arrays or objects from
  extended URL encoding: a field is absent or a string.
- `Chat.ChatServer.SetTyping`: takes the truthiness of the submitted `typing`
  value as a `bool`. JavaScript's `!!` conversion of the raw value, where the
  string "false" counts as true, happens before the model.
- multer storage, its size limit and mime-type filter, `sharp`, `fs` and
  `mkdirSync`: these are file I/O and a foreign image library.
  - `Upload` receives whether a file passed the filter (`hasImage`) and the
    stored output name or a failure (`stored`).
  - A multer error handled outside the route is not modelled.
  - The temporary file left behind on the 400 and 500 paths is not modelled.
- `timestamp()` and the Toronto time-zone arithmetic: the label is an opaque
  `stamp` parameter.
- `Chat.ChatServer.Sweep`: uses one `stamp` for every notice of a sweep.
  The source asks the clock for each notice, so labels could differ across a
  minute boundary.
- `Date.now()`: a `now` parameter.
- `Math.random()` file names: not modelled.
- `setInterval` scheduling and how the timer interleaves with requests: this
  is concurrency. Only the callback body is modelled, as `Sweep(now, stamp)`.
- The visit order of `for…in`. In JavaScript, keys that look like array
  indices come first in ascending numeric order, then the other keys in the
  order they were inserted.
  - `Chat.EvictIdle` and `Chat.ChatServer.Sweep`: pick the next room or user
    arbitrarily.
  - Their ghost outputs record the order used and are proved to list each
    idle user exactly once.
  - So the order of several idle notices within one sweep is not pinned to
    insertion order.
- Property names inherited from `Object.prototype`, such as `constructor` and
  `__proto__`, are treated as ordinary keys. In JavaScript, `rooms[name]`
  finds them even though no room was created.
- Strings are sequences of Unicode scalar values, not JavaScript's UTF-16
  code units. This matters only for characters outside the Basic
  Multilingual Plane.
- The user interface under `public/` and the server start-up (`app.listen`)
  are not part of this model.
