# Tweeter feed assembly and process control, in Dafny

Tweeter is a small Node.js web application. Visitors post short messages
("tweets") with a name and a pair of coordinates. The front page lists every
stored tweet, in reverse of the order the store returned them. Everything it does lives in `run.js`. This
project models the part of that file with behaviour of its own:

- **`Tweet`** (`tweet.dfy`, module `Tweets`) is an immutable value with five
  fields. `getHtml` renders it as an HTML fragment: an outer styled `<div>`,
  then the message text in one styled `<div>`, then
  `name | time | latitude,longitude` in another. The fields go in verbatim
  and nothing is escaped. The markup template `Markup` is written for any
  style attributes. `Html` is that template with the class's own three style
  strings, so the lemmas hold for every choice of styles, the class's
  included.
- **`TweetList`** (`tweet_list.dfy`, module `TweetLists`) is a class with a
  string `buffer` (`#tweets`), a `count` (`#numTweets`) and its style fields.
  A ghost sequence `Fragments` holds the fragments added so far. The
  constructor opens the wrapper `<div>`. `AddTweet` appends one wrapped
  fragment and counts it. `GetHtml` closes the wrapper, or yields `""` when
  nothing was added. `Valid()` ties the buffer and the count to
  `Fragments`. The specification function `ListStyles.Render` states what
  `GetHtml` returns.
- **The `GET /` handler** (`feed.dfy`, module `Feed`) reverses the records
  the store returned. It turns each into a `Tweet`, adds them in that order
  to a fresh `TweetList`, and renders it. `BuildFeed` is that loop.
  `FeedHtml` is its specification.
- **Process control** (`process.dfy`, module `ProcessControl`) has two parts:
  - `Start` is the command-line check made before the server starts.
  - `OnReadable` is the standard-input handler. It trims each chunk it
    reads. The command `stop` writes the shutdown line and ends the process
    with status 0. Any other command writes `Invalid command: <command>` and
    a fresh prompt. `Session` is the handler's specification: it maps a
    sequence of trimmed commands to the lines written and the exit status.
    `Trim` models `String.prototype.trim` over the ECMAScript whitespace and
    line-terminator characters.

`text.dfy` (module `Text`) holds a small shared vocabulary:
- `OccursAt`, "this pattern occurs at this index";
- `Contains`;
- `Before`, the text up to the first occurrence of a pattern. It is used to
  read a message text back out of a fragment;
- the `Regroup` lemmas, which regroup a concatenation of three to seven pieces.

`options.dfy` (module `Options`) holds `Option`, used for the text read back
from a fragment and for the process exit status.

## Model

| member | source | states |
|---|---|---|
| Tweets.HtmlShape | run.js:201-207 | A rendered tweet starts with `<div ` + the outer style + `>` and ends with `</div>`. |
| Tweets.HtmlEmbedsFieldsInOrder | run.js:203-206 | The text, the name, the formatted time, the latitude and the longitude all occur verbatim in the fragment. They do not overlap and come in this fixed order, with latitude and longitude separated. `latitude,longitude` occurs as one piece where the latitude starts. |
| Tweets.MarkupShowsFields | run.js:203-206 | For any style attributes, the fragment contains each of the five interpolated values. |
| Tweets.MarkupEmbedsFields | run.js:203-206 | For any style attributes, the five values occur in order and without overlapping, and `latitude,longitude` occurs as one piece where the latitude starts. |
| Tweets.MarkupShape | run.js:201-207 | For any style attributes, the fragment opens with the outer `<div>` tag and ends with `</div>`. |
| Tweets.LinesEmbed | run.js:203-205 | The message text sits right after the outer and message opening tags. The attribution line follows the closed message line. |
| Tweets.NameLineEmbeds | run.js:205 | In the attribution line, the name starts right after the opening tag. The time starts 3 characters (the length of ` \| `) after the name ends, the latitude 3 characters after the time ends, and the longitude 1 character after the latitude ends. |
| Tweets.NameLineSeparators | run.js:205 | The characters between those fields are the separators: ` \| ` right after the name, ` \| ` right after the time, and `,` right after the latitude, so `latitude,longitude` occurs as one piece. |
| Tweets.TextReadBack | run.js:201-207 | Reading the fragment back (`TextOf`) yields the message text up to the first `</div>` that starts in the text or right after it. |
| Tweets.TextRoundTrip | run.js:201-207 | The text is read back exactly from the fragment whenever it does not contain `</div>`, markup and `<` included. |
| Tweets.CloseTagInTextCutsReadBack | run.js:204 | Nothing is escaped. For a text `x` + `</div>` + `z` whose first `</div>` starts at `\|x\|`, the reader `TextOf` returns exactly `x`, not the text. |
| Tweets.CommaInLatitudeIsAmbiguous | run.js:205 | The coordinates are joined by a bare comma. A latitude `x,y` with longitude `l` renders exactly as latitude `x` with longitude `y,l`. |
| TweetLists.TweetList.constructor | run.js:211-223 | A new list holds only the wrapper's opening tag `<div ` + list style + `>\n`, has count 0 and no fragments, and carries the class's style strings. |
| TweetLists.TweetList.InitHtml | run.js:221-223 | On a list with an empty buffer, no count and no fragments, appends the wrapper's opening tag to the buffer and changes nothing else. The list is then valid. |
| TweetLists.TweetList.AddTweet | run.js:225-230 | The new buffer is the old one followed by `<div style="">\n` + the tweet's `getHtml()` + `</div>\n`. The count goes up by exactly 1, and the tweet's fragment is appended to `Fragments`. Validity is kept. |
| TweetLists.TweetList.GetHtml | run.js:231-234 | Changes nothing and returns `Render(Fragments)`. The result is `""` exactly when the count is 0. |
| TweetLists.RenderEmptyIff | run.js:231-233 | The rendering is the empty string exactly when nothing was added. |
| TweetLists.RenderWrapped | run.js:221-233 | After at least one addition, the rendering starts with the wrapper's opening tag and ends with `</div>\n`. |
| TweetLists.JoinedInCallOrder | run.js:225-228 | The wrapped fragment of the `k`-th addition follows exactly the fragments of the earlier additions, and the later ones come after it. |
| TweetLists.RenderPlacesFragment | run.js:221-233 | The `k`-th wrapped fragment occurs in the rendering right after the opening tag and the `k` earlier wrapped fragments. |
| TweetLists.EarlierBeforeLater | run.js:225-228 | An earlier addition's wrapped fragment ends no later than a later one's begins. |
| TweetLists.RenderStartsWithFirst | run.js:221-233 | The rendering begins with the opening tag followed by the first addition's wrapped fragment. |
| TweetLists.RenderContains | run.js:225-233 | Anything a fragment contains, the rendering of a list it was added to contains. |
| Feed.BuildFeed | run.js:75-84 | Reversing the records, adding each as a `Tweet` to a fresh `TweetList` and rendering it yields `FeedHtml` of the records with the classes' style strings. |
| Feed.RecordFragmentsSnoc | run.js:78-81 | Handling one more record appends exactly that record's fragment. |
| Feed.FragmentOfReversed | run.js:77-79 | After `reverse()`, the `k`-th tweet added is the record `k` places from the end of the store's list. |
| Feed.FeedEmptyIff | run.js:75-84 | The feed is the empty string exactly when the store returned no records. |
| Feed.FeedInReverseStoreOrder | run.js:76-84 | The `k`-th wrapped fragment of the feed is that of the record `k` places from the end. It sits right after the opening tag and the `k` fragments before it. |
| Feed.FeedStartsWithLastStored | run.js:76-84 | The feed opens with the wrapper's tag followed by the wrapped fragment of the last record the store returned. |
| Feed.FeedShowsEveryRecord | run.js:76-84 | Every stored record's text, name, formatted time, latitude and longitude appear verbatim in the feed. |
| ProcessControl.Start | run.js:25-30 | Any user argument (argv longer than two) gives the usage line `Usage: node run.js` and a newline, with exit status 1. No arguments gives serving on port 5000. |
| ProcessControl.TrimStartSpec | run.js:50 | Trimming the front keeps a suffix and removes only whitespace, up to the first non-space character. |
| ProcessControl.TrimEndSpec | run.js:50 | Trimming the back keeps a prefix and removes only whitespace, back to the last non-space character. |
| ProcessControl.TrimIsTrimmed | run.js:50 | A trimmed string has no whitespace at either end. |
| ProcessControl.TrimStartDrops | run.js:50 | Whitespace before a string that starts with a non-space is exactly what trimming the front removes. |
| ProcessControl.TrimEndDrops | run.js:50 | Whitespace after a string that ends in a non-space is exactly what trimming the back removes. |
| ProcessControl.TrimUnique | run.js:50 | A trimmed string surrounded by whitespace trims back to itself. |
| ProcessControl.TrimSplits | run.js:50 | Every string is its trimmed form between two runs of whitespace. |
| ProcessControl.TrimIdempotent | run.js:50 | Trimming twice is the same as trimming once. |
| ProcessControl.PaddedStopExits | run.js:50-53 | `stop` with only whitespace around it exits with status 0 and the shutdown message. |
| ProcessControl.DispatchStopsExactly | run.js:50-56 | A chunk exits, always with status 0 and the shutdown message, exactly when it is lower-case `stop` with only whitespace around it. Any other chunk is rejected with `Invalid command: ` followed by its trimmed form. |
| ProcessControl.SessionStep | run.js:49-57 | One command of the loop: `stop` writes the shutdown line and ends the session. Anything else writes its rejection and a prompt, and the loop goes on. |
| ProcessControl.RejectionsAt | run.js:55-56 | The `j`-th rejected command gives line `2j`, `Invalid command: <command>`, and line `2j+1`, the prompt. |
| ProcessControl.SessionAfterRejections | run.js:49-57 | Until the first `stop`, the session writes the rejections of the commands so far and then continues with the rest. |
| ProcessControl.OnReadable | run.js:48-59 | The read loop writes exactly the lines of `Session` over the trimmed chunks and ends with its exit status. |
| ProcessControl.SessionExitsIffStop | run.js:49-58 | The process exits, with status 0, exactly when some command is `stop`. Otherwise no exit happens and the handler keeps reading. |
| ProcessControl.SessionRejectsUntilStop | run.js:49-57 | Each command before the first `stop` gets its `Invalid command:` line and a prompt, in arrival order. When `stop` is the next command, the shutdown line is the last thing written. |

## Left out

- The MongoDB client is not modelled: connecting, `getTweets`, `insertTweet`, `deleteAll` and closing. It is network I/O against an external library. The store's answer is a parameter: a sequence of `Record`s in the order the store returned them.
- Express, body parsing, static files and the EJS templates are not modelled. They are framework wiring, and the templates are not part of this model. `BuildFeed` returns the string handed to the template as `tweetList`.
- dotenv, the environment variables and the connection URI are configuration, not behaviour.
- `Date` construction on `POST /addTweet` is not modelled, because it reads the clock. A date is its epoch milliseconds.
- `toLocaleTimeString` depends on the host's locale and time zone. It is a parameter (`TimeFormatter`) of every member that renders a tweet.
- Feed.BuildFeed: `tweets.reverse()` reverses the array in place. The model works on the reversed value (`Reversed`), so it does not capture that the original array is also changed.
- Feed.BuildFeed: store documents whose fields are missing or are not strings are not modelled. The model takes five strings and a date. A missing or non-string name, text or coordinate would be interpolated as `undefined` or as the value's string form. A missing `date`, or one that is not a `Date`, makes `toLocaleTimeString` (run.js:205) throw. The handler's catch (run.js:87-88) then logs the error, and no page is rendered. The model leaves that error path out.
- Feed.FeedStartsWithLastStored: the handler never sorts by date. It reverses whatever order the store's `find()` returned (run.js:100-104). The feed is newest first only if the store returns tweets in insertion order, which the store does not promise.
- The process-exit side effect of `process.exit` is modelled as the `exitCode` of the result. `OnReadable` returns at `stop` and handles no later chunk.
- The console output before the loop is not modelled: the startup banner, binding the port, and the first prompt (run.js:35-46). `OnReadable` models what the `readable` handler writes once chunks arrive. `console.log` lines end in `"\n"`. The prompt is written without one.
- How the input stream splits typed text into chunks, and how `readable` events interleave with HTTP requests, is not modelled. The model takes the chunks in the order `read()` returns them. Several `readable` events in a row act like one event over all their chunks.
- The try/catch blocks that log an error and carry on (run.js:87-91, 136-140, 158-162, 172-176) are only logging, and are not modelled.
- How a browser parses the rendered page is not modelled. `TextOf` is a reader defined on the fragment: it stops at the first `</div>`. A browser would match a `</div>` against an open nested `<div>`, a comment or a raw-text element in the message text instead.
- TweetLists.TweetList.GetHtml: it has no `modifies` clause, so two consecutive calls return the same string. That is implied by the contract, not stated as a separate lemma.
- JavaScript numbers are not modelled: the count is an unbounded `nat`. It would lose precision only beyond 2^53 additions.

Where the code is followed over a looser description of it:

- The handler trims each chunk that `read()` returns, not each line. When several lines arrive in one chunk, they form a single command: `"stop\nfoo"` trims to itself and is rejected. The model follows the code, and `Commands` trims whole chunks.
- An empty or all-whitespace chunk is also rejected, with `Invalid command: ` followed by nothing. Only a trimmed `stop` exits.
