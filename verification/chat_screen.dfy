/**
  The logic of the chat screen (src/screens/ChatScreen.js): how a message's
  text is cut into runs and which runs become tappable links, where a tap on a
  link leads, what the back button does, and how sending a message grows the
  conversation.
*/
module ChatScreen {
  import opened Wrappers
  import opened JsText

  // ---------------------------------------------------------------------------
  // Tokenizer: text.split(/(\s+)/)

  /** The length of the longest prefix of `s` made only of whitespace (when
      `space`) or only of non-whitespace (when `!space`). */
  function RunLength(s: string, space: bool): (n: nat)
    ensures n <= |s|
    ensures forall i :: 0 <= i < n ==> IsSpace(s[i]) == space
    ensures n < |s| ==> IsSpace(s[n]) != space
  {
    if s == [] || IsSpace(s[0]) != space then 0 else 1 + RunLength(s[1..], space)
  }

  /** What `split` with the capturing pattern `(\s+)` returns: an odd number of
      parts that concatenate back to `text`; the even-indexed parts are runs of
      non-whitespace (only the first and the last may be empty) and the
      odd-indexed parts are non-empty runs of whitespace. */
  ghost predicate IsRunSplit(text: string, parts: seq<string>) {
    && |parts| % 2 == 1
    && Concat(parts) == text
    && (forall i :: 0 <= i < |parts| && i % 2 == 0 ==> NoSpace(parts[i]))
    && (forall i :: 0 <= i < |parts| && i % 2 == 1 ==> parts[i] != [] && AllSpace(parts[i]))
    && (forall i :: 0 < i < |parts| - 1 ==> parts[i] != [])
  }

  /** `text.split(/(\s+)/)` */
  function Split(text: string): (parts: seq<string>)
    ensures IsRunSplit(text, parts)
    decreases |text|
  {
    var w := RunLength(text, false);
    if w == |text| then
      assert Concat([text]) == text;
      [text]
    else
      var rest := text[w..];
      var g := RunLength(rest, true);
      var tail := Split(rest[g..]);
      assert text == text[..w] + rest[..g] + rest[g..];
      ConsRunSplit(text, text[..w], rest[..g], rest[g..], tail);
      [text[..w], rest[..g]] + tail
  }

  /** A non-whitespace run and a whitespace run put in front of a split keep
      it a split, provided the whitespace run is maximal. */
  lemma ConsRunSplit(text: string, a: string, b: string, rest: string, tail: seq<string>)
    requires text == a + b + rest
    requires NoSpace(a) && b != [] && AllSpace(b)
    requires rest == [] || !IsSpace(rest[0])
    requires IsRunSplit(rest, tail)
    ensures IsRunSplit(text, [a, b] + tail)
  {
    var parts := [a, b] + tail;
    assert parts[1..] == [b] + tail && parts[1..][1..] == tail;
    assert Concat(parts) == text;
    LeadingEmptyPart(rest, tail);
    assert forall i :: 2 <= i < |parts| ==> parts[i] == tail[i - 2];
  }

  /** A prefix of non-whitespace (or whitespace) characters followed by a
      character of the other kind, or by nothing, is the maximal run. */
  lemma RunPrefix(s: string, a: string, b: string, space: bool)
    requires s == a + b
    requires forall i :: 0 <= i < |a| ==> IsSpace(a[i]) == space
    requires b == [] || IsSpace(b[0]) != space
    ensures RunLength(s, space) == |a|
  {
    assert forall i :: 0 <= i < |a| ==> s[i] == a[i];
    assert b != [] ==> s[|a|] == b[0];
  }

  /** A split whose first part is empty and that has more parts starts with
      whitespace. */
  lemma LeadingEmptyPart(text: string, parts: seq<string>)
    requires IsRunSplit(text, parts)
    ensures |parts| > 1 && parts[0] == [] ==> text != [] && IsSpace(text[0])
  {
    if |parts| > 1 && parts[0] == [] {
      assert parts[1..][1..] == parts[2..];
      assert text == Concat(parts[1..]) == parts[1] + Concat(parts[2..]);
      assert text[0] == parts[1][0];
    }
  }

  /** The first two parts of a split of three or more, and the split the
      remaining parts form. */
  lemma RunSplitHead(text: string, parts: seq<string>)
    requires IsRunSplit(text, parts) && |parts| >= 3
    ensures var r := Concat(parts[2..]);
      && text == parts[0] + (parts[1] + r)
      && (r == [] || !IsSpace(r[0]))
      && IsRunSplit(r, parts[2..])
  {
    var r := Concat(parts[2..]);
    assert parts[1..][1..] == parts[2..];
    assert Concat(parts[1..]) == parts[1] + r;
    if |parts| > 3 {
      assert parts[2..][1..] == parts[3..];
      assert r == parts[2] + Concat(parts[3..]);
      assert parts[2] != [];
      assert r[0] == parts[2][0];
    } else {
      assert parts[2..][1..] == [];
      assert r == parts[2];
    }
    assert forall i :: 0 <= i < |parts[2..]| ==> parts[2..][i] == parts[i + 2];
  }

  /** `Split` returns the only sequence of parts with the shape of a split:
      the shape determines the parts. */
  lemma {:induction false} SplitIsOnlyRunSplit(text: string, parts: seq<string>)
    requires IsRunSplit(text, parts)
    ensures parts == Split(text)
    decreases |text|
  {
    if |parts| == 1 {
      assert parts[1..] == [];
      assert Concat(parts) == parts[0] + Concat([]) == parts[0];
      RunPrefix(text, text, [], false);
    } else {
      var a, b, r := parts[0], parts[1], Concat(parts[2..]);
      RunSplitHead(text, parts);
      RunPrefix(text, a, b + r, false);
      var rest := text[|a|..];
      assert rest == b + r;
      RunPrefix(rest, b, r, true);
      assert rest[|b|..] == r;
      SplitIsOnlyRunSplit(r, parts[2..]);
      assert parts == [a, b] + parts[2..];
    }
  }

  // ---------------------------------------------------------------------------
  // Link classification: /\S+\.\S+/.test(part)

  /** `/\S+\.\S+/.test(part)`: some `.` has a non-whitespace character on
      each side of it. */
  predicate IsLink(part: string) {
    exists i | 1 <= i < |part| - 1 :: part[i] == '.' && !IsSpace(part[i - 1]) && !IsSpace(part[i + 1])
  }

  /** The strings `\S+\.\S+` matches as a whole: at least three non-whitespace
      characters with a `.` strictly inside. */
  ghost predicate LinkShaped(t: string) {
    NoSpace(t) && exists k :: 0 < k < |t| - 1 && t[k] == '.'
  }

  /** The question `test` asks of the pattern: does some substring of `part`
      match it as a whole? */
  ghost predicate RegexFinds(part: string) {
    exists a, b :: 0 <= a <= b <= |part| && LinkShaped(part[a..b])
  }

  /** `IsLink` answers exactly the regular-expression test. */
  lemma IsLinkIffRegexFinds(part: string)
    ensures IsLink(part) <==> RegexFinds(part)
  {
    if IsLink(part) {
      var i :| 1 <= i < |part| - 1 && part[i] == '.' && !IsSpace(part[i - 1]) && !IsSpace(part[i + 1]);
      var t := part[i - 1..i + 2];
      assert t == [part[i - 1], '.', part[i + 1]];
      assert LinkShaped(t);
    }
    if RegexFinds(part) {
      var a, b :| 0 <= a <= b <= |part| && LinkShaped(part[a..b]);
      var t := part[a..b];
      var k :| 0 < k < |t| - 1 && t[k] == '.';
      assert part[a + k] == t[k] && part[a + k - 1] == t[k - 1] && part[a + k + 1] == t[k + 1];
      assert !IsSpace(t[k - 1]) && !IsSpace(t[k + 1]);
    }
  }

  /** A run of non-whitespace is a link exactly when it has a `.` with at
      least one character before it and one after it. */
  lemma NonSpaceRunLink(part: string)
    requires NoSpace(part)
    ensures IsLink(part) <==> exists i :: 0 < i < |part| - 1 && part[i] == '.'
  {
    if exists i :: 0 < i < |part| - 1 && part[i] == '.' {
      var i :| 0 < i < |part| - 1 && part[i] == '.';
      assert !IsSpace(part[i - 1]) && !IsSpace(part[i + 1]);
    }
  }

  /** A whitespace run, and the empty part, are never links. */
  lemma SpaceRunNotLink(part: string)
    requires AllSpace(part)
    ensures !IsLink(part)
  {
  }

  /** "e.g." and "sample.pdf" are links. */
  lemma LinkExamples()
    ensures IsLink("e.g.") && IsLink("sample.pdf")
  {
    assert IsLink("e.g.") by { DotWitness("e.g.", 1); }
    DotWitness("sample.pdf", 6);
  }

  /** A dot at either end does not make a link: "end." and ".com" are not links. */
  lemma NonLinkExamples()
    ensures !IsLink("end.") && !IsLink(".com")
  {
    NoInnerDot("end.");
    NoInnerDot(".com");
  }

  /** Without a `.` strictly inside, a part is not a link. */
  lemma NoInnerDot(part: string)
    requires |part| >= 2 && '.' !in part[1..|part| - 1]
    ensures !IsLink(part)
  {
    assert forall i :: 1 <= i < |part| - 1 ==> part[i] == part[1..|part| - 1][i - 1];
  }

  /** A `.` with a non-whitespace character on each side makes a link. */
  lemma DotWitness(part: string, i: nat)
    requires 0 < i < |part| - 1 && part[i] == '.'
    requires !IsSpace(part[i - 1]) && !IsSpace(part[i + 1])
    ensures IsLink(part)
  {
  }

  // ---------------------------------------------------------------------------
  // URL normalisation and the tap handler

  /** The URL a link part opens: the part itself when it starts with "http",
      otherwise the part behind "https://". */
  function LinkUrl(part: string): string {
    if StartsWith(part, "http") then part else "https://" + part
  }

  /** Normalisation only ever prefixes: the URL starts with "http" and ends
      with the part, and it is the part itself exactly when the part already
      starts with "http". */
  lemma LinkUrlKeepsPart(part: string)
    ensures StartsWith(LinkUrl(part), "http")
    ensures EndsWith(LinkUrl(part), part)
    ensures LinkUrl(part) == part <==> StartsWith(part, "http")
  {
    if !StartsWith(part, "http") {
      var url := "https://" + part;
      assert url[..4] == "http";
      assert url[|url| - |part|..] == part;
    }
  }

  /** Where a tap leads: the in-app video screen, or the platform's opener. */
  datatype LinkAction = ShowVideo(videoUrl: string) | OpenExternally(url: string)

  /** `handleLinkPress(url)` */
  function HandleLinkPress(url: string): LinkAction {
    if EndsWith(ToLower(url), ".mp4") then ShowVideo(url) else OpenExternally(url)
  }

  /** A tap on a link part dispatches on the part as written: normalisation
      only adds a prefix without a `.`, so the ".mp4" test gives the same
      answer on the part as on its URL. */
  lemma DispatchOnPart(part: string)
    ensures HandleLinkPress(LinkUrl(part)) ==
            if EndsWith(ToLower(part), ".mp4") then ShowVideo(LinkUrl(part))
            else OpenExternally(LinkUrl(part))
  {
    if !StartsWith(part, "http") {
      ToLowerAppend("https://", part);
      assert ToLower("https://") == "https://";
      EndsWithAfterPrefix("https://", ToLower(part), ".mp4");
    }
  }

  /** "lesson1.MP4" opens the video screen on "https://lesson1.MP4". */
  lemma DispatchVideoExample()
    ensures HandleLinkPress(LinkUrl("lesson1.MP4")) == ShowVideo("https://lesson1.MP4")
  {
    var part := "lesson1.MP4";
    assert LinkUrl(part) == "https://lesson1.MP4" by {
      assert part[0] == 'l';
    }
    assert EndsWith(ToLower(part), ".mp4") by {
      var v := ToLower(part);
      assert v[7] == '.' && v[8] == 'm' && v[9] == 'p' && v[10] == '4';
      assert v[7..] == ".mp4";
    }
    DispatchOnPart(part);
  }

  /** "sample.pdf" is handed to the opener as "https://sample.pdf". */
  lemma DispatchPdfExample()
    ensures HandleLinkPress(LinkUrl("sample.pdf")) == OpenExternally("https://sample.pdf")
  {
    var part := "sample.pdf";
    assert LinkUrl(part) == "https://sample.pdf" by {
      assert part[0] == 's';
    }
    assert !EndsWith(ToLower(part), ".mp4") by {
      assert ToLower(part)[9] == 'f';
    }
    DispatchOnPart(part);
  }

  // ---------------------------------------------------------------------------
  // Rendering a message

  /** One rendered part: inert text, or a tappable link with its URL. */
  datatype Segment = Inert(content: string) | Tappable(content: string, url: string)

  function RenderPart(part: string): Segment {
    if IsLink(part) then Tappable(part, LinkUrl(part)) else Inert(part)
  }

  /** The segments of parts, one each, in order. */
  function RenderParts(parts: seq<string>): seq<Segment> {
    seq(|parts|, i requires 0 <= i < |parts| => RenderPart(parts[i]))
  }

  /** Rendering parts distributes over concatenation. */
  lemma RenderPartsAppend(p: seq<string>, q: seq<string>)
    ensures RenderParts(p + q) == RenderParts(p) + RenderParts(q)
  {
    assert forall i :: |p| <= i < |p| + |q| ==> (p + q)[i] == q[i - |p|];
  }

  /** The parts `renderMessage` builds from a message's text. */
  function RenderText(text: string): seq<Segment> {
    RenderParts(Split(text))
  }

  /** The text each segment shows. */
  function Contents(segments: seq<Segment>): seq<string> {
    seq(|segments|, i requires 0 <= i < |segments| => segments[i].content)
  }

  /** What tapping a segment does: nothing for inert text. */
  function Press(segment: Segment): Option<LinkAction> {
    match segment
    case Inert(_) => None
    case Tappable(_, url) => Some(HandleLinkPress(url))
  }

  /** Rendering is lossless: the shown pieces, read in order, are the text,
      whitespace included. */
  lemma RenderPreservesText(text: string)
    ensures Concat(Contents(RenderText(text))) == text
  {
    assert Contents(RenderText(text)) == Split(text);
  }

  /** Only non-whitespace runs become links, and each link's URL ends with
      the text it shows. */
  lemma RenderedLinks(text: string)
    ensures forall i :: 0 <= i < |RenderText(text)| && RenderText(text)[i].Tappable? ==>
              i % 2 == 0 && RenderText(text)[i].content != [] && NoSpace(RenderText(text)[i].content)
              && EndsWith(RenderText(text)[i].url, RenderText(text)[i].content)
  {
    var parts := Split(text);
    forall i | 0 <= i < |parts| && IsLink(parts[i])
      ensures i % 2 == 0 && parts[i] != [] && NoSpace(parts[i]) && EndsWith(LinkUrl(parts[i]), parts[i])
    {
      if i % 2 == 1 { SpaceRunNotLink(parts[i]); }
      LinkUrlKeepsPart(parts[i]);
    }
  }

  /** A text made of one run of non-whitespace renders as that one part. */
  lemma RenderSingleRun(text: string)
    requires NoSpace(text)
    ensures RenderText(text) == [RenderPart(text)]
  {
    assert Concat([text]) == text + Concat([]);
    SplitIsOnlyRunSplit(text, [text]);
  }

  /** Rendering a text that starts with a non-whitespace run and a maximal
      whitespace run: those two parts, then the rendering of the rest. */
  lemma RenderCons(text: string, a: string, b: string, rest: string)
    requires text == a + b + rest
    requires NoSpace(a) && b != [] && AllSpace(b)
    requires rest == [] || !IsSpace(rest[0])
    ensures Split(text) == [a, b] + Split(rest)
    ensures RenderText(text) == [RenderPart(a), RenderPart(b)] + RenderText(rest)
  {
    ConsRunSplit(text, a, b, rest, Split(rest));
    SplitIsOnlyRunSplit(text, [a, b] + Split(rest));
    RenderPartsAppend([a, b], Split(rest));
  }

  // ---------------------------------------------------------------------------
  // The back button

  /** Where the back button of the chat screen goes. */
  datatype BackAction = NavigateHome | GoBack

  /** The back button, given `navigation.canGoBack()` and the routes of the
      navigation state (the chat screen on top). The route beneath the top is
      read as `routes[length - 2]`, which is absent for a stack of one. */
  function BackFromChat(canGoBack: bool, routes: seq<string>): (action: BackAction)
    ensures !canGoBack ==> action == NavigateHome
    ensures canGoBack ==> (action == NavigateHome <==> |routes| >= 2 && routes[|routes| - 2] == "Video")
  {
    if canGoBack then
      if |routes| >= 2 && routes[|routes| - 2] == "Video" then NavigateHome else GoBack
    else NavigateHome
  }

  /** On a single stack, where going back is possible exactly when there is a
      route beneath: the chat screen goes Home when it has no history or sits
      on the video screen, and otherwise pops to a route that is not the
      video screen. */
  lemma BackNeverReturnsToVideo(routes: seq<string>)
    ensures BackFromChat(|routes| >= 2, routes) == NavigateHome <==>
            (|routes| < 2 || routes[|routes| - 2] == "Video")
    ensures BackFromChat(|routes| >= 2, routes) == GoBack ==>
            var below := routes[..|routes| - 1]; below != [] && below[|below| - 1] != "Video"
  {
  }

  // ---------------------------------------------------------------------------
  // The conversation

  datatype Sender = User | Bot

  /** A chat message; `id` is the clock reading it was created with (the
      source keeps it as a decimal string). */
  datatype Message = Message(id: int, text: string, sender: Sender)

  /** What the request to the backend brought back. */
  datatype ServerResponse = Replied(reply: string) | Unreachable

  const ConnectionError := "Error: Could not connect to server."

  /** The text of the bot message appended for a response. */
  function BotText(response: ServerResponse): string {
    match response
    case Replied(reply) => reply
    case Unreachable => ConnectionError
  }

  /** `input.trim()` is empty: the send is refused. */
  predicate IsBlank(input: string) {
    Trim(input) == []
  }

  /** A blank input is one made only of whitespace. */
  lemma BlankIffAllSpace(input: string)
    ensures IsBlank(input) <==> AllSpace(input)
  {
    TrimEmptyIffBlank(input);
  }

  /** The module-level `globalMessages`: the conversation that outlives one
      mount of the screen. */
  class MessageStore {
    var messages: seq<Message>

    constructor ()
      ensures messages == []
    {
      messages := [];
    }
  }

  /** One mounted chat screen: its `messages` and `input` state. */
  class ChatSession {
    const store: MessageStore
    var messages: seq<Message>
    var input: string

    /** The effect on `messages` keeps the store holding the latest list. */
    ghost predicate Valid()
      reads this, store
    {
      store.messages == messages
    }

    /** Mounting: the state starts from the stored conversation and an empty input. */
    constructor (store: MessageStore)
      ensures this.store == store && Valid()
      ensures messages == store.messages && input == []
    {
      this.store := store;
      messages := store.messages;
      input := [];
    }

    /** `onChangeText={setInput}` */
    method ChangeInput(text: string)
      requires Valid()
      modifies this
      ensures Valid() && input == text && messages == old(messages)
    {
      input := text;
    }

    /** `sendMessage`, run to completion with no other send in between.
        `sentAt` and `repliedAt` are the clock readings before and after the
        request; `response` is what the request brought back. `request` is
        the message posted to the backend, `None` when nothing was sent. */
    method SendMessage(sentAt: int, repliedAt: int, response: ServerResponse)
      returns (request: Option<string>)
      requires Valid()
      modifies this, store
      ensures Valid()
      ensures request.None? <==> IsBlank(old(input))
      ensures request.None? ==> messages == old(messages) && input == old(input)
      ensures request.Some? ==>
                && request.value == old(input)
                && input == []
                && messages == old(messages) + [Message(sentAt, old(input), User),
                                                Message(repliedAt + 1, BotText(response), Bot)]
      ensures old(messages) <= messages
    {
      if Trim(input) == [] {
        return None;
      }
      var userMessage := Message(sentAt, input, User);
      messages := messages + [userMessage];
      store.messages := messages;
      var currentInput := input;
      input := [];
      request := Some(currentInput);
      var botMessage := Message(repliedAt + 1, BotText(response), Bot);
      messages := messages + [botMessage];
      store.messages := messages;
    }
  }
}
