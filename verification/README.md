# Chat tutor: reply resolver, chat screen and video screen in Dafny

This project models the logic core of a small learning-assistant app and proves
properties of it. The app has an Express backend with one endpoint, `POST /chat`,
and a React Native front end with a chat screen and a video screen.

- **Reply resolver** (`reply_resolver.dfy`). The handler lowercases the message.
  It then tests for the keywords "hello", "math", "video", "pdf", "word" and
  "bye", in that order, by substring containment. The first match picks a canned
  reply; no match leaves the fallback reply. The model names the seven replies in
  a `Reply` datatype and keeps their exact texts, including the U+2019
  apostrophes, in `ReplyText`. An absent or non-string `message` makes the
  handler throw; this is modelled as `Failure(TypeError)`.
- **Chat screen** (`chat_screen.dfy`). This covers:
  - how `renderMessage` cuts a message with `split(/(\s+)/)`;
  - which parts `/\S+\.\S+/` marks as links, and how a link part becomes a URL;
  - where a tap on a link goes (the video screen for `.mp4`, the platform opener
    otherwise);
  - the back-button rule;
  - `sendMessage` as a method of a `ChatSession` class whose `messages` and
    `input` fields it updates. The module-level `globalMessages` store is a
    separate `MessageStore` object that the session keeps in step.
- **Video screen** (`video_screen.dfy`). This covers `fixedUrl`, which rewrites
  the first `localhost` on Android; `fileName`, the last non-empty
  `/`-separated segment; and the header subtitle built from it.
- **Conversation** (`conversation.dfy`) connects the modules. Each file reply of
  the backend renders in the chat screen as plain words and exactly one link, to
  its file. Tapping the video link opens the video screen, which plays the URL
  unchanged and names the file "lesson1.mp4".
- **JavaScript strings** (`text.dfy`) supplies the string operations the code
  relies on:
  - the `\s` class, which is the ECMAScript WhiteSpace and LineTerminator set;
  - `trim`, `toLowerCase`, `startsWith`, `endsWith`, `includes` and `indexOf`;
  - `replace` with a string pattern;
  - `split` with a one-character separator;
  - `filter(Boolean)`.
- **Wrappers** (`wrappers.dfy`) holds `Option` and `Result`.

Most operations are specified against an independent reference definition and
connected to it by a lemma:

- The if/else-if chain is checked against a first-match-wins rule table.
- `split(/(\s+)/)` is checked against a characterisation of a split into
  alternating maximal runs, which is shown to have exactly one solution.
- The link test is checked against the regular expression's own meaning: some
  substring is `\S+\.\S+`.
- `fileName` is checked against a "last segment" predicate, which is shown to
  have at most one solution.

Two behaviours of the code are easy to miss:

- A missing `message` makes the handler throw. In `backend/server.js` the
  optional chain on line 19 yields `undefined`, and line 23 then calls
  `.includes` on it. `HandleChat` returns `Failure(TypeError)` for that case.
- The two ids of one send are `Date.now()` for the user message and a later
  `Date.now() + 1` for the reply. Nothing keeps ids distinct across sends. The
  model keeps those clock readings as the ids and does not claim they are
  distinct.

## Model

| member | source | states |
|---|---|---|
| JsText.TrimEmptyIffBlank | src/screens/ChatScreen.js:58 | `trim()` returns the empty string exactly when every character is `\s` whitespace |
| JsText.IndexFrom | src/screens/VideoScreen.js:26 | the search used by `replace` finds the first occurrence at or after the start index, or reports that there is none |
| JsText.IndexOf | src/screens/VideoScreen.js:25-26 | `indexOf` is the search from index 0; its meaning is stated by `IndexFrom` and `IncludesIffIndexOf` |
| JsText.IncludesIffIndexOf | backend/server.js:23 | `includes` holds exactly when `indexOf` finds an occurrence |
| JsText.Includes | backend/server.js:23-39 | `includes` holds exactly when the pattern occurs somewhere in the string; `IncludesIffIndexOf` ties it to `indexOf`, and `MissingCharExcludes` rules it out when a pattern character is missing |
| JsText.StartsWith | src/screens/ChatScreen.js:106 | `startsWith` holds exactly when the string begins with the pattern; `LinkUrlKeepsPart` uses it to pin down the normalised URL |
| JsText.EndsWith | src/screens/ChatScreen.js:95 | `endsWith` holds exactly when the string ends with the pattern; `EndsWithAfterPrefix` shows a prefix without the pattern's first character does not change it |
| JsText.ReplaceFirst | src/screens/VideoScreen.js:26 | `replace` with a string pattern replaces the first occurrence only, and returns the string unchanged without one; stated by `FixedUrlReplacesFirst` and `FixedUrlRemovesSoleLocalhost` |
| JsText.Trim | src/screens/ChatScreen.js:58 | `trim` removes leading and trailing `\s`; `TrimEmptyIffBlank` states that it is empty exactly for all-whitespace input |
| JsText.ToLowerOfToUpper | backend/server.js:19 | lowercasing forgets case: lowercasing an uppercased string equals lowercasing the original |
| JsText.ToLower | backend/server.js:19 | `toLowerCase` on ASCII letters; `ToLowerOfToUpper` states that it forgets case and `ToLowerAppend` that it works character by character |
| JsText.ToLowerAppend | src/screens/ChatScreen.js:95 | lowercasing a concatenation is the concatenation of the lowercased pieces |
| JsText.SplitOn | src/screens/VideoScreen.js:35 | `split("/")` returns at least one part, no part contains `/`, and joining the parts with `/` gives back the input |
| JsText.NonEmpty | src/screens/VideoScreen.js:35 | `filter(Boolean)` keeps exactly the non-empty parts: every kept part is non-empty, and a string is kept exactly when it is a non-empty part of the input |
| JsText.NonEmptyAppend | src/screens/VideoScreen.js:35 | `filter(Boolean)` keeps order: the kept parts of two lists laid end to end are the kept parts of the first followed by those of the second |
| ReplyResolver.ReplyText | backend/server.js:21-40 | every reply text the handler can send is non-empty |
| ReplyResolver.Resolve | backend/server.js:19-41 | the if/else-if chain on the lowercased message; `ResolveIsFirstMatch`, `ResolvePriority` and `ResolveFallback` state which reply it picks |
| ReplyResolver.ReplyTextInjective | backend/server.js:21-40 | the seven reply texts are pairwise different, so the text identifies the rule that answered |
| ReplyResolver.HandleChat | backend/server.js:18-44 | the handler fails with a TypeError exactly when `message` is absent; a present message always gets one non-empty reply, the text of the resolved rule |
| ReplyResolver.ResolveIsFirstMatch | backend/server.js:23-41 | the if/else-if chain equals the ordered rule table (hello, math, video, pdf, word, bye) evaluated first-match-wins on the lowercased message, with the fallback when nothing matches |
| ReplyResolver.ResolvePriority | backend/server.js:23-41 | a message gets rule k's reply exactly when its lowercase form contains rule k's keyword and none of the earlier keywords |
| ReplyResolver.ResolveFallback | backend/server.js:21 | a message gets the fallback reply exactly when its lowercase form contains none of the six keywords |
| ReplyResolver.ResolveIgnoresCase | backend/server.js:19 | uppercasing or lowercasing the message does not change the reply |
| ReplyResolver.ResolveUppercasePdf | backend/server.js:31-34 | "Can I get the PDF?" gets the PDF reply |
| ReplyResolver.ResolveHelloFirst | backend/server.js:23-24 | "hello, math video" gets the hello reply: the earliest rule wins |
| ReplyResolver.ResolveGoodbye | backend/server.js:39-40 | "goodbye" gets the bye reply: matching is by substring |
| ReplyResolver.ResolvePassword | backend/server.js:35-38 | "password" gets the Word-file reply: matching is by substring |
| ReplyResolver.ResolveEmpty | backend/server.js:21 | the empty message gets the fallback reply |
| ChatScreen.Split | src/screens/ChatScreen.js:103 | `split(/(\s+)/)` returns an odd number of parts that concatenate to the text, with even parts non-whitespace runs (only the ends may be empty) and odd parts non-empty whitespace runs |
| ChatScreen.SplitIsOnlyRunSplit | src/screens/ChatScreen.js:103 | any sequence of parts with that shape is exactly what `split` returns |
| ChatScreen.IsLinkIffRegexFinds | src/screens/ChatScreen.js:104 | the link test holds exactly when some substring of the part matches `\S+\.\S+` as a whole |
| ChatScreen.IsLink | src/screens/ChatScreen.js:104 | the link test `/\S+\.\S+/.test(part)`; `IsLinkIffRegexFinds` states that it holds exactly when the regular expression finds a match |
| ChatScreen.NonSpaceRunLink | src/screens/ChatScreen.js:104 | a non-whitespace run is a link exactly when it has a `.` with at least one character before and after it |
| ChatScreen.SpaceRunNotLink | src/screens/ChatScreen.js:103-104 | a whitespace run, or an empty part, is never a link |
| ChatScreen.LinkExamples | src/screens/ChatScreen.js:104 | "e.g." and "sample.pdf" are links |
| ChatScreen.NonLinkExamples | src/screens/ChatScreen.js:104 | "end." and ".com" are not links |
| ChatScreen.LinkUrlKeepsPart | src/screens/ChatScreen.js:106 | the URL of a link part starts with "http" and ends with the part, and equals the part exactly when the part starts with "http" |
| ChatScreen.LinkUrl | src/screens/ChatScreen.js:106 | the URL a link part opens; `LinkUrlKeepsPart` states that it only ever prefixes "https://" to parts not starting with "http" |
| ChatScreen.HandleLinkPress | src/screens/ChatScreen.js:94-100 | a URL ending in ".mp4" in any case opens the video screen on it, any other goes to the platform opener; `DispatchOnPart` states the same test on the part as written |
| ChatScreen.DispatchOnPart | src/screens/ChatScreen.js:94-106 | tapping a link opens the video screen exactly when the part as written ends in ".mp4" (any case), and the platform opener otherwise |
| ChatScreen.DispatchVideoExample | src/screens/ChatScreen.js:94-106 | "lesson1.MP4" opens the video screen with "https://lesson1.MP4" |
| ChatScreen.DispatchPdfExample | src/screens/ChatScreen.js:94-106 | "sample.pdf" hands "https://sample.pdf" to the platform opener |
| ChatScreen.RenderPart | src/screens/ChatScreen.js:104-117 | a link part becomes a tappable segment with its normalised URL, any other part plain text; `RenderedLinks` states which segments are tappable |
| ChatScreen.RenderText | src/screens/ChatScreen.js:103-118 | a message renders as one segment per part of the split; `RenderPreservesText`, `RenderedLinks` and `RenderCons` state what those segments are |
| ChatScreen.Press | src/screens/ChatScreen.js:111 | tapping a link segment calls `handleLinkPress` with its URL, tapping plain text does nothing; `VideoReplyTaps` and its two siblings state this for the file replies |
| ChatScreen.RenderPreservesText | src/screens/ChatScreen.js:102-118 | the rendered pieces, read in order, give back the message text exactly, whitespace included |
| ChatScreen.RenderedLinks | src/screens/ChatScreen.js:102-118 | only non-empty non-whitespace runs become tappable, and each tappable segment's URL ends with the text it shows |
| ChatScreen.RenderSingleRun | src/screens/ChatScreen.js:103-104 | a text with no whitespace renders as that one part |
| ChatScreen.RenderCons | src/screens/ChatScreen.js:103 | a text made of a non-whitespace run, a maximal whitespace run and a rest splits and renders as those two parts followed by the rest's parts |
| ChatScreen.BackFromChat | src/screens/ChatScreen.js:156-168 | the back button goes Home when the stack cannot go back; otherwise it goes Home exactly when the route beneath the top is `Video`, and pops one route otherwise |
| ChatScreen.BackNeverReturnsToVideo | src/screens/ChatScreen.js:156-168 | on a single stack, back goes Home exactly when there is no route beneath or it is `Video`, and a pop never lands on `Video` |
| ChatScreen.BlankIffAllSpace | src/screens/ChatScreen.js:58 | a send is refused exactly when the input is all whitespace |
| ChatScreen.IsBlank | src/screens/ChatScreen.js:58 | `!input.trim()`; `BlankIffAllSpace` states that it holds exactly for all-whitespace input |
| ChatScreen.BotText | src/screens/ChatScreen.js:77-89 | the bot message carries the server's reply, or the connection error text when the request fails; `SendMessage` states that this text is appended |
| ChatScreen.MessageStore.constructor | src/screens/ChatScreen.js:20 | the global store starts empty |
| ChatScreen.ChatSession.constructor | src/screens/ChatScreen.js:23-30 | a mounted screen starts from the stored conversation and an empty input, and keeps the store in step |
| ChatScreen.ChatSession.ChangeInput | src/screens/ChatScreen.js:235 | typing replaces the input and leaves the messages alone |
| ChatScreen.ChatSession.SendMessage | src/screens/ChatScreen.js:57-91 | a blank input changes nothing and sends nothing. Otherwise the untrimmed input is sent, the input is cleared, and exactly two messages are appended after the unchanged earlier ones: the user's text with the first clock reading, then the server's reply (or the connection error text) with the second reading plus one. The store always ends up holding the same list |
| VideoScreen.FixedUrl | src/screens/VideoScreen.js:23-29 | an absent or empty URL is returned as it is, and so is any URL on a platform other than Android or without "localhost" |
| VideoScreen.FixedUrlReplacesFirst | src/screens/VideoScreen.js:25-26 | on Android only the first "localhost" is replaced by "10.0.2.2", and the text before and after it is kept |
| VideoScreen.FixedUrlRemovesSoleLocalhost | src/screens/VideoScreen.js:26 | a URL with exactly one "localhost" has none left after the Android rewrite |
| VideoScreen.FileName | src/screens/VideoScreen.js:32-40 | `fileName`; `FileNameIsLastSegment` and `FileNameOfFalsyUrl` state what it returns for every URL |
| VideoScreen.Subtitle | src/screens/VideoScreen.js:78 | the header subtitle is never empty: a non-empty file name is shown as it is, and otherwise (empty or `undefined`) the line is "Video Player" |
| VideoScreen.LastSegmentUnique | src/screens/VideoScreen.js:35-36 | a string has at most one last segment |
| VideoScreen.SegmentsOf | src/screens/VideoScreen.js:35 | the non-empty `/`-separated parts are absent exactly for a string of slashes, and otherwise the last of them is the last segment |
| VideoScreen.FileNameIsLastSegment | src/screens/VideoScreen.js:32-40 | for a non-empty URL, `fileName` is `undefined` exactly when the URL is only slashes (and the header then shows "Video Player"); otherwise it is the last segment: non-empty, without `/`, followed only by slashes |
| VideoScreen.FileNameOfFalsyUrl | src/screens/VideoScreen.js:34 | an absent or empty URL gives `""`, and the header shows "Video Player" |
| VideoScreen.FileNameFromSegment | src/screens/VideoScreen.js:35-36 | the last segment of the URL is its file name |
| VideoScreen.FileNameExample | src/screens/VideoScreen.js:35-36 | "http://host/uploads/lesson1.mp4" is named "lesson1.mp4" |
| VideoScreen.FileNameSkipsSlashes | src/screens/VideoScreen.js:35 | "a//b/" is named "b" |
| VideoScreen.FileNameOfSlashes | src/screens/VideoScreen.js:35-36 | "///" has no file name (`undefined`), and the header shows "Video Player" |
| Conversation.ServedFileLink | src/screens/ChatScreen.js:103-106 | a URL of the backend with a whitespace-free path is a single part, is a link, and is opened as written |
| Conversation.RenderWord | src/screens/ChatScreen.js:103-104 | a word without `.` followed by one space renders as two inert segments before the rest |
| Conversation.RenderSentence | src/screens/ChatScreen.js:102-118 | plain words, each followed by a space, then a lone link render as inert words and spaces with the link as the only tappable segment |
| Conversation.VideoReplyRendering | backend/server.js:29-30 | the video reply renders as four inert words and exactly one link, to the video |
| Conversation.PdfReplyRendering | backend/server.js:33-34 | the PDF reply renders as three inert words and exactly one link, to the PDF |
| Conversation.WordReplyRendering | backend/server.js:37-38 | the Word-file reply renders as four inert words and exactly one link, to the .docx file |
| Conversation.FileUrlEndings | backend/server.js:29-38 | the three file URLs end in ".mp4", ".pdf" and ".docx" respectively |
| Conversation.VideoLinkTap | src/screens/ChatScreen.js:94-96 | tapping the video reply's link opens the video screen with that URL |
| Conversation.VideoUrlKept | src/screens/VideoScreen.js:23-29 | the video screen plays the video reply's URL unchanged on every platform |
| Conversation.VideoFileName | src/screens/VideoScreen.js:32-40 | the video screen names the video reply's file "lesson1.mp4" and shows that name in its header |
| Conversation.PdfLinkTap | src/screens/ChatScreen.js:94-98 | tapping the PDF reply's link hands that URL to the platform opener |
| Conversation.WordLinkTap | src/screens/ChatScreen.js:94-98 | tapping the Word-file reply's link hands that URL to the platform opener |
| Conversation.InertWordsTaps | src/screens/ChatScreen.js:117 | plain words and their spaces render as segments that do nothing when tapped |
| Conversation.VideoReplyTaps | src/screens/ChatScreen.js:102-118 | the video reply renders as nine segments, of which only the last reacts to a tap, opening the video screen on the video URL |
| Conversation.PdfReplyTaps | src/screens/ChatScreen.js:102-118 | the PDF reply renders as seven segments, of which only the last reacts to a tap, handing the PDF URL to the platform opener |
| Conversation.WordReplyTaps | src/screens/ChatScreen.js:102-118 | the Word-file reply renders as nine segments, of which only the last reacts to a tap, handing the .docx URL to the platform opener |

## Left out

- The Express server itself is not modelled. That covers routing, JSON body parsing, CORS, the static `/videos` and `/files` folders, and `listen`. `HandleChat` starts from the parsed `message` field. A present value that is not a string (which would also throw) is folded into the absent case.
- The HTTP request made with axios is not modelled. `SendMessage` takes its outcome as a parameter: the reply text, or a failure that yields the connection error text.
- The clock is not modelled. `Date.now()` readings are parameters of `SendMessage`. Ids are kept as integers; the conversion to a decimal string is left out.
- Concurrency is not modelled. `SendMessage` models one send run to completion: a second send during the request, React's batching of state updates, and the `useEffect` delay before `globalMessages` catches up are left out.
- `ChatScreen.ChatSession.SendMessage` does not promise distinct message ids, because the source does not guarantee them (see above).
- `JsText.ToLowerAppend`: lowercasing is modelled character by character on ASCII letters, so it distributes over `+`. JavaScript lowercasing depends on context ("AΣ".toLowerCase() is "aς", not "a" followed by "σ"). Its one use, the ".mp4" test on a link, is not affected, because the prefix "https://" is ASCII.
- `JsText.ToLowerOfToUpper`: `toLowerCase` and `toUpperCase` are modelled on ASCII letters only. Full Unicode case mapping is not modelled. Every keyword and every example is ASCII.
- `ReplyResolver.ResolveIgnoresCase`: the claim that uppercasing a message does not change its reply holds for the ASCII case mapping modelled here. With full Unicode mapping it can fail: "pdﬀ" (with U+FB00) gets the fallback reply, but its uppercase form "PDFF" gets the PDF reply. `Resolve` itself is unaffected, because lowercasing only ASCII letters gives the same reply as full lowercasing for every message.
- Strings are sequences of characters; UTF-16 surrogate pairs are not modelled.
- React Native rendering is not modelled: styles, bubbles, the timestamp (`toLocaleTimeString`), auto-scrolling, keyboard listeners and the send button's look. A rendered message is modelled as its list of inert and tappable segments.
- Navigation and `Linking.openURL` are returned as action values (`ShowVideo`, `OpenExternally`, `NavigateHome`, `GoBack`). What the navigator then does with its stack is not modelled.
- `VideoScreen.FixedUrl` and `VideoScreen.FileName` take the URL as a string or absent. A non-string `videoUrl`, and the `catch` branch it could reach in `fileName`, are not modelled.
- The video player, screen orientation, playback controls and the video screen's own back button are not modelled.
- The home screen and the app's navigator set-up are not modelled.
