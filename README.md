# Echo: client state machine, device check and route guards

This project models three small pieces of the Echo social-feed app and proves what they do.

**The mobile client's root component.** It keeps
- the screen shown (feed, profile, composer or single post),
- the selected author and post,
- the loaded posts,
- a loading flag.

Its handlers load the feed, navigate and publish a post. What the component shows depends on that state. The reaction bar derives counts and a highlight from each post. The composer refuses to publish blank text.

**The backend's start-up check for an Android device.** It scans the text printed by `adb devices` for a line whose state is `device`.

**The backend's route guards.** They reject requests with empty required fields before any database or recommender is touched. The stub routes always answer with empty lists.

Network replies, database answers and the output of `adb` are inputs of the model. Nothing is sent or run.

Files:

- `wrappers.dfy`: `Option`, used for JavaScript's `null`/`undefined`.
- `text.dfy`: the string primitives both sides use.
  - Go's `strings.TrimSpace`, `strings.Fields` and `strings.Split`.
  - JavaScript's `String.prototype.trim`.
  - Trimming and field splitting take the whitespace class as a parameter. Go uses Unicode White_Space. JavaScript uses ECMAScript WhiteSpace and LineTerminator, which add U+FEFF and drop U+0085.
- `device_scan.dfy`: `isDeviceConnected`.
  - A `Qualifies` predicate for one line.
  - The early-return loop `ScanLines`, proved equal to "some line qualifies".
  - Lemmas on what that predicate accepts.
- `routes.dfy`: the guards of `POST /posts`, `/recommendations`, `/users/search` and `/posts/search`, and the `/feed` stub.
- `client.dfy`: the client.
  - The `App` class holds the component's state. Each handler is a method, and its contract gives the whole new state.
  - The `PostComposer` class holds the composer's text and media.
  - Pure functions give the view (`Render`), the loaded posts (`PostsAfterFetch`) and the reaction bar (`ReactionBar`).
- `publishing.dfy`: the composer's guard joined to the server's guard.

Two behaviours of the code that are easy to miss:

- **The profile view.** It is shown only for an author name that is truthy, so an empty-string author also gives a blank screen (App.tsx:455). `Render` and `App.ShowsSomething` state this.
- **`fetchPosts`.** It never looks at the reply's status. A non-2xx reply whose body is a JSON array is loaded like a success. Any other reply empties the list, because `res.json()` throws on a body that is not JSON and `.reverse` throws on a JSON value that is not an array, such as the server's `{"error": …}` object or the `null` it sends for an empty table. A request that fails before any reply arrives empties the list too.

## Model

| member | source | states |
|---|---|---|
| Text.IsGoSpace | backend/main.go:74 | Go's whitespace test used by `strings.TrimSpace` and `strings.Fields`: the Unicode White_Space code points |
| Text.IsJsSpace | App.tsx:295 | the code points `String.prototype.trim` removes: ECMAScript WhiteSpace and LineTerminator |
| Text.GoAndJsSpace | App.tsx:295 | a character is JavaScript whitespace iff it is Go whitespace other than U+0085, or it is U+FEFF |
| Text.Trim | backend/main.go:74 | the trimmed text is no longer than the input and neither starts nor ends with whitespace |
| Text.TrimShape | backend/main.go:74 | the input is some whitespace, then the trimmed text, then some whitespace |
| Text.TrimUnique | backend/main.go:74 | for any split of the input into whitespace, a middle that cannot be trimmed, and whitespace, trimming returns that middle |
| Text.TrimEmptyIff | App.tsx:295 | the trimmed text is empty exactly when every character of the input is whitespace |
| Text.Fields | backend/main.go:79 | every field is non-empty and holds no whitespace |
| Text.FieldsConcat | backend/main.go:79 | concatenating the fields yields exactly the input's non-whitespace characters, in order |
| Text.FieldsLeadingSpace | backend/main.go:79 | leading whitespace does not change the fields |
| Text.FieldsTrailingSpace | backend/main.go:79 | trailing whitespace does not change the fields |
| Text.FieldsOfJoin | backend/main.go:78-79 | joining non-empty, whitespace-free words with a whitespace character and splitting into fields gives the words back |
| Text.FieldsOfWord | backend/main.go:79 | a single non-empty word without whitespace is one field |
| Text.FieldsCons | backend/main.go:79 | a word followed by any non-empty run of whitespace is the first field, and the rest of the fields are those of what follows the run; with FieldsLeadingSpace and FieldsOfWord this fixes the fields of every input as its maximal non-whitespace runs |
| Text.FieldsOfTrim | backend/main.go:74-79 | trimming a line before splitting it into fields does not change the fields |
| Text.Split | backend/main.go:72 | there is at least one piece, and no piece contains the separator |
| Text.JoinSplit | backend/main.go:72 | joining the pieces with the separator gives back the input |
| Text.SplitJoin | backend/main.go:72 | splitting separator-free pieces joined by the separator gives back the pieces |
| DeviceScan.Qualifies | backend/main.go:74-80 | the per-line test of the loop: after trimming the line is not blank, does not start with the header, and has at least two fields, the second being "device" |
| DeviceScan.ScanLines | backend/main.go:73-87 | the loop with its early return answers true exactly when some line qualifies |
| DeviceScan.IsDeviceConnected | backend/main.go:65-88 | false when adb cannot be run; otherwise true exactly when some line of the output, split at newlines, qualifies |
| DeviceScan.QualifiesIff | backend/main.go:74-80 | a line qualifies iff its trimmed text does not start with the header and its second whitespace-separated field is "device"; the blank test is implied, and a line with fewer than two fields never qualifies |
| DeviceScan.UnusableStateNeverQualifies | backend/main.go:83-85 | a line whose second field is "unauthorized" or "offline" never qualifies |
| DeviceScan.NonQualifyingLineIgnored | backend/main.go:73-87 | inserting a non-qualifying line anywhere in the output does not change the answer |
| DeviceScan.OrderIrrelevant | backend/main.go:73-87 | any rearrangement of the lines gives the same answer as the original order |
| DeviceScan.OnlyHeaderAndBlanks | backend/main.go:75-77 | output made only of blank and header lines reports no device |
| DeviceScan.EmptyOutputNotConnected | backend/main.go:72-87 | empty output reports no device |
| DeviceScan.DeviceLine | backend/main.go:78-79 | a line "serial TAB state" is already trimmed, and its fields are exactly the serial and the state |
| DeviceScan.DeviceLineNotHeader | backend/main.go:75 | no "serial TAB state" line starts with the header |
| DeviceScan.SpacedDeviceLineQualifiesIff | backend/main.go:78-80 | with any non-empty run of whitespace between serial and state, the fields are exactly the serial and the state, and the line qualifies iff it is not a header line and the state is "device" |
| DeviceScan.DeviceLineQualifiesIff | backend/main.go:78-85 | a "serial TAB state" line qualifies exactly when the state is "device" |
| Routes.CreatePost | backend/main.go:146-166 | the reply is 400 iff the body is malformed or the author or content is empty; an insert of exactly the sent author, content and media is issued iff the reply is not 400; then 201 iff the insert succeeds and 500 iff it fails; every reply except 201 carries an error body |
| Routes.EmptyFieldsNeverInserted | backend/main.go:153-157 | an empty author or content gets 400 "Author and content required" and no insert, whatever the database would answer |
| Routes.CreatedMeansInsertedAsSent | backend/main.go:158-165 | a 201 reply means the body bound, the insert succeeded, and the row holds the author, content and media that were sent |
| Routes.Query | backend/main.go:91 | an absent query parameter reads as "" |
| Routes.Recommendations | backend/main.go:90-98 | 400 with "user_id is required" iff user_id is missing or empty; otherwise 200 carrying the recommender's answer for that id |
| Routes.RecommenderNotConsulted | backend/main.go:91-95 | without a user id any two recommenders give the same reply |
| Routes.SearchUsers | backend/main.go:172-179 | 400 with an error iff q is missing or empty; otherwise 200 with an empty user list |
| Routes.SearchPosts | backend/main.go:181-188 | 400 with an error iff q is missing or empty; otherwise 200 with an empty post list |
| Routes.SearchGuardsAgree | backend/main.go:172-188 | the two search routes reject exactly the same requests |
| Routes.Feed | backend/main.go:168-170 | always 200 with an empty post list |
| Client.Reverse | App.tsx:356 | the result has the input's length and holds element i at position n-1-i |
| Client.ReverseReverse | App.tsx:356 | reversing twice gives back the original order |
| Client.ReversePermutes | App.tsx:356 | reversing keeps every element as often as it occurs |
| Client.PostsAfterFetch | App.tsx:354-358 | a JSON-array reply, whatever its status, leaves its items in reverse order; a failed request, a body that is not JSON, or a JSON value that is not an array leaves no posts |
| Client.FetchRoundTrip | App.tsx:354-356 | reversing the loaded posts recovers the server's array, and no post is lost or duplicated |
| Client.AuthorShown | App.tsx:455 | JavaScript truthiness of the selected author: null and the empty string are falsy |
| Client.Render | App.tsx:438-471 | at most one view is shown; the feed shows the spinner while loading and the list otherwise; the profile view is shown iff the screen is profile and the author is truthy (non-null, non-empty); the post view is shown iff the screen is post and a post is selected; the composer is shown iff the screen is create; nothing is shown exactly in the two unselected cases |
| Client.DisplayedCount | App.tsx:88 | a reaction type missing from the map shows 0; a present one shows its stored count |
| Client.ReactionBar | App.tsx:80-92 | six buttons in the fixed order, each with its displayed count, highlighted exactly when it equals the viewer's reaction |
| Client.AtMostOneHighlighted | App.tsx:83 | no two buttons are highlighted, and one is highlighted iff the viewer's reaction is one of the six types |
| Client.CanPublish | App.tsx:295 | the publish guard `text.trim()` is truthy: the JavaScript-trimmed text is not empty |
| Client.CanPublishIff | App.tsx:295 | publishing is allowed iff the text holds a character that is not JavaScript whitespace |
| Client.IsOk | App.tsx:407 | fetch's `response.ok`: the status is in 200-299 |
| Client.Request | App.tsx:404 | the body sent has the anonymous author, the untrimmed text and the media |
| Client.App.constructor | App.tsx:330-336 | the feed screen, nothing selected, no posts, loading, so the spinner is shown |
| Client.App.BeginFetch | App.tsx:353 | loading becomes true and nothing else changes, so the feed shows the spinner |
| Client.App.FinishFetch | App.tsx:354-361 | posts become the fetch's result and loading becomes false whatever the outcome; the screen and selections are unchanged |
| Client.App.FetchPosts | App.tsx:350-362 | the posts become the fetch's result, loading ends false, and the navigation state and its invariant are preserved |
| Client.App.HandleProfile | App.tsx:385-388 | the screen is profile with that author selected; the post, posts and loading are unchanged; from the feed the invariant is kept; a non-empty name is shown |
| Client.App.HandleViewPost | App.tsx:389-392 | the screen is post with that post selected; the author, posts and loading are unchanged; from the feed the invariant is kept; the post is shown |
| Client.App.OpenComposer | App.tsx:448 | the screen is create and nothing else changes; the composer is shown |
| Client.App.HandleBack | App.tsx:393-397 | from any state: the feed screen with nothing selected, posts and loading unchanged, the invariant holds |
| Client.App.HandleCreate | App.tsx:398-421 | sends the anonymous author with the text; a non-ok reply with readable text changes nothing; an ok reply reloads the posts and shows the feed; a failed request or unreadable error text shows the feed without reloading; selections are unchanged and the invariant is kept from the composer |
| Client.App.ShowsSomething | App.tsx:455 | once the selection matches the screen, the area below the header is blank only on the profile of an author named "" |
| Client.PostComposer.constructor | App.tsx:260-261 | the text starts empty and there is no media |
| Client.PostComposer.ChangeText | App.tsx:283-284 | the text becomes the input's value and the media is unchanged |
| Client.PostComposer.Publish | App.tsx:294-299 | when the trimmed text is non-empty it hands over the untrimmed text and the media and clears the text; otherwise nothing is handed over and nothing changes |
| Publishing.Bind | backend/main.go:147-148 | the server record carries the client's author and content, and its media is "" when the client sent none |
| Publishing.PublishableIsNonEmpty | App.tsx:295 | text the composer lets through is not empty |
| Publishing.PublishedDraftsAreAccepted | backend/main.go:153-165 | a draft the composer lets through is never answered 400; it is inserted as written, untrimmed, and the client sees an ok reply exactly when the insert succeeds |

## Left out

- Rendering, styles, the theme and its switcher, `AnimatedCard`, `ProfileScreen`, `PostScreen` and `FeedScreen` are left out as presentation. `FeedScreen`'s own pull-to-refresh flag is left out too. The model stops at which view is shown with which data.
- Reaction toggling is not modelled: pressing a reaction does nothing, because the handlers are no-ops (App.tsx:194, 232). `reactions` is taken to be present on every post, as the client's `Post` type declares. The server's post record has no such field.
- `fetch`, `response.json()`, `response.text()`, file logging (`logErrorToFile`), `ErrorUtils` and `console` are not modelled as calls. Their outcomes become the inputs `FetchResult`, `Body` and `CreateResult`, and log writes are dropped.
- Client.FinishFetch: where `BeginFetch` and `FinishFetch` of two loads interleave, the model does no more than make the last call win. React's batching and scheduling of state updates are not modelled.
- Client.App.HandleCreate: the handler is modelled as one step, with no other handler running during its awaits of `fetch`, `response.text()` or `fetchPosts()` (App.tsx:401, 408, 415). In the app the composer's back button stays live meanwhile. A user can go back and open a profile or a post, and the late `setScreen('feed')` (App.tsx:420) then shows the feed while an author or post is still selected, a state outside `App.Valid`. On the early-return path the user stays wherever they moved to. The invariant clause of its contract holds only for the uninterrupted run.
- Routes.Query: query parameters are a map, so a key repeated in the request, for which gin returns the first value, is not represented.
- Client.Reverse: `Array.prototype.reverse` works in place. The array is fresh from `response.json()` and nothing else refers to it, so the model reverses a value.
- The commented-out real-time subscription (App.tsx:368-383) is left out as dead code.
- Running `adb` (`exec.Command`) becomes the input `AdbRun`. The warning logged for offline or unauthorised devices is dropped.
- Text.Trim and Text.Fields work on Unicode characters. Go works on UTF-8 bytes and treats invalid bytes as U+FFFD, which is not whitespace. JavaScript works on UTF-16 code units. No input of valid text tells the two apart.
- Routes.CreatePost: gin's JSON binding is reduced to "malformed, or bound with absent fields empty". The database's answer is the input `insertSucceeds`.
- Routes.Recommendations: the recommender lives in a package that is not part of this model. It is a parameter returning a list of strings.
- These routes are left out: `/register` and `/login` (a bind check only, no stored state), `GET /posts` (an SQL query and row scanning), and `/subscriptions`. `GET /posts` and `/subscriptions` run database round-trips whose behaviour lives in the database. `backend/handlers.go` and the subscription handlers are left out for the same reason.
- Ordering: the server already sorts posts newest first (backend/main.go:129), and the client reverses them again. Only the client's reversal is modelled, so no end-to-end claim about feed order is made.
