/**
  The reply resolver behind `POST /chat` of the backend (backend/server.js):
  the message is lowercased, then tested for the keywords "hello", "math",
  "video", "pdf", "word" and "bye" in that order; the first keyword found
  chooses a canned reply, and a message containing none of them gets the
  fallback reply.
*/
module ReplyResolver {
  import opened Wrappers
  import opened JsText

  const HelloReply := "Hello! How can I help you today?"
  const MathReply := "Great choice! Do you want to watch a video lesson?"
  /** The files the backend serves under /videos and /files, as the
      Android emulator reaches them. */
  const FileServer := "http://10.0.2.2:5000"
  const VideoPath := "/videos/lesson1.mp4"
  const PdfPath := "/files/sample.pdf"
  const WordPath := "/files/sample.docx"
  const VideoUrl := FileServer + VideoPath
  const PdfUrl := FileServer + PdfPath
  const WordUrl := FileServer + WordPath

  const VideoReply := "Here\U{2019}s your lesson video: " + VideoUrl
  const PdfReply := "Here\U{2019}s your PDF: " + PdfUrl
  const WordReply := "Here\U{2019}s your Word file: " + WordUrl
  const ByeReply := "Goodbye! Have a nice day!"
  /** The initial value of `botReply`, kept when no keyword matches. */
  const FallbackReply := "Sorry, I didn\U{2019}t understand that. Try again."

  /** The replies the handler can send, one per rule and the fallback. */
  datatype Reply = Hello | Math | Video | Pdf | Word | Bye | Fallback

  /** The text sent as `reply` in the JSON response. */
  function ReplyText(reply: Reply): (text: string)
    ensures text != []
  {
    match reply
    case Hello => HelloReply
    case Math => MathReply
    case Video => VideoReply
    case Pdf => PdfReply
    case Word => WordReply
    case Bye => ByeReply
    case Fallback => FallbackReply
  }

  /** A keyword and the reply it selects. */
  datatype Rule = Rule(keyword: string, reply: Reply)

  /** The keyword tests of the handler, in the order they are made. */
  const Rules: seq<Rule> := [
    Rule("hello", Hello),
    Rule("math", Math),
    Rule("video", Video),
    Rule("pdf", Pdf),
    Rule("word", Word),
    Rule("bye", Bye)
  ]

  /** The if/else-if chain of the handler, applied to a present message. */
  function Resolve(message: string): Reply {
    var m := ToLower(message);
    if Includes(m, "hello") then Hello
    else if Includes(m, "math") then Math
    else if Includes(m, "video") then Video
    else if Includes(m, "pdf") then Pdf
    else if Includes(m, "word") then Word
    else if Includes(m, "bye") then Bye
    else Fallback
  }

  /** Why the handler fails. When `req.body.message` is absent or null, the
      optional chain yields `undefined` and line 23 calls `.includes` on it.
      When it is any other non-string, line 19 calls a `toLowerCase` that is
      undefined. Both throw a TypeError. */
  datatype HandlerError = TypeError

  /** The whole handler: the JSON body's `message` field to the `reply` it
      answers with, or the error it throws. */
  function HandleChat(message: Option<string>): (r: Result<string, HandlerError>)
    ensures message.None? <==> r == Failure(TypeError)
    ensures message.Some? ==> r.Success? && r.value != [] && r.value == ReplyText(Resolve(message.value))
  {
    match message
    case None => Failure(TypeError)
    case Some(text) => Success(ReplyText(Resolve(text)))
  }

  // ---------------------------------------------------------------------------
  // A reference definition: an ordered rule table, first match wins

  /** The reply of the first rule whose keyword `m` includes, or the fallback. */
  function FirstMatch(rules: seq<Rule>, m: string): Reply {
    if rules == [] then Fallback
    else if Includes(m, rules[0].keyword) then rules[0].reply
    else FirstMatch(rules[1..], m)
  }

  /** The if/else-if chain is the rule table evaluated first-match-wins on the
      lowercased message. */
  lemma ResolveIsFirstMatch(message: string)
    ensures Resolve(message) == FirstMatch(Rules, ToLower(message))
  {
    var m := ToLower(message);
    assert FirstMatch(Rules[6..], m) == Fallback;
    assert FirstMatch(Rules[5..], m) == if Includes(m, "bye") then Bye else Fallback by {
      assert Rules[5..][1..] == Rules[6..];
    }
    assert FirstMatch(Rules[4..], m) == if Includes(m, "word") then Word else FirstMatch(Rules[5..], m) by {
      assert Rules[4..][1..] == Rules[5..];
    }
    assert FirstMatch(Rules[3..], m) == if Includes(m, "pdf") then Pdf else FirstMatch(Rules[4..], m) by {
      assert Rules[3..][1..] == Rules[4..];
    }
    assert FirstMatch(Rules[2..], m) == if Includes(m, "video") then Video else FirstMatch(Rules[3..], m) by {
      assert Rules[2..][1..] == Rules[3..];
    }
    assert FirstMatch(Rules[1..], m) == if Includes(m, "math") then Math else FirstMatch(Rules[2..], m) by {
      assert Rules[1..][1..] == Rules[2..];
    }
    assert Rules[0..] == Rules;
  }

  /** The texts tell the replies apart: a client reading `reply` knows which
      rule answered. */
  lemma ReplyTextInjective(a: Reply, b: Reply)
    ensures ReplyText(a) == ReplyText(b) <==> a == b
  {
    assert |HelloReply| == 32 && |MathReply| == 50 && |VideoReply| == 65;
    assert |PdfReply| == 54 && |WordReply| == 61 && |ByeReply| == 25;
    assert |FallbackReply| == 43;
  }

  /** The rule table entry by entry. */
  lemma RulesTable()
    ensures |Rules| == 6
    ensures Rules[0] == Rule("hello", Hello) && Rules[1] == Rule("math", Math)
    ensures Rules[2] == Rule("video", Video) && Rules[3] == Rule("pdf", Pdf)
    ensures Rules[4] == Rule("word", Word) && Rules[5] == Rule("bye", Bye)
  {
  }

  /** No keyword of the rules before position `k` is in `m`. */
  ghost predicate NoEarlierKeyword(m: string, k: nat)
    requires k <= |Rules|
  {
    forall j :: 0 <= j < k ==> !Includes(m, Rules[j].keyword)
  }

  /** Priority: the message gets the reply of rule `k` exactly when its
      lowercase form includes rule `k`'s keyword and none of the earlier ones. */
  lemma ResolvePriority(message: string, k: nat)
    requires k < |Rules|
    ensures Resolve(message) == Rules[k].reply <==>
            (Includes(ToLower(message), Rules[k].keyword) && NoEarlierKeyword(ToLower(message), k))
  {
    RulesTable();
  }

  /** Fallback: the message gets the fallback reply exactly when its lowercase
      form includes none of the six keywords. */
  lemma ResolveFallback(message: string)
    ensures Resolve(message) == Fallback <==> NoEarlierKeyword(ToLower(message), |Rules|)
  {
    RulesTable();
  }

  /** Matching ignores case: changing the case of ASCII letters does not change
      the reply. */
  lemma ResolveIgnoresCase(message: string)
    ensures Resolve(ToUpper(message)) == Resolve(message)
    ensures Resolve(ToLower(message)) == Resolve(message)
  {
    ToLowerOfToUpper(message);
  }

  // ---------------------------------------------------------------------------
  // Worked examples

  /** Lowercasing the question "Can I get the PDF?". */
  lemma PdfQuestionLowered()
    ensures ToLower("Can I get the PDF?") == "can i get the pdf?"
  {
  }

  /** "Can I get the PDF?" is matched case-insensitively by the "pdf" rule. */
  lemma ResolveUppercasePdf()
    ensures Resolve("Can I get the PDF?") == Pdf
  {
    var m := "can i get the pdf?";
    PdfQuestionLowered();
    MissingCharExcludes(m, "hello", 'l');
    MissingCharExcludes(m, "math", 'm');
    MissingCharExcludes(m, "video", 'v');
    assert MatchAt(m, "pdf", 14);
  }

  /** "hello, math video" names three keywords; the first rule wins. */
  lemma ResolveHelloFirst()
    ensures Resolve("hello, math video") == Hello
  {
    assert MatchAt(ToLower("hello, math video"), "hello", 0);
  }

  /** Matching is by substring, not by word: "goodbye" gets the bye reply. */
  lemma ResolveGoodbye()
    ensures Resolve("goodbye") == Bye
  {
    var m := ToLower("goodbye");
    assert m == "goodbye";
    MissingCharExcludes(m, "hello", 'h');
    MissingCharExcludes(m, "math", 'm');
    MissingCharExcludes(m, "video", 'v');
    MissingCharExcludes(m, "pdf", 'p');
    MissingCharExcludes(m, "word", 'w');
    assert MatchAt(m, "bye", 4);
  }

  /** Matching is by substring, not by word: "password" gets the Word-file reply. */
  lemma ResolvePassword()
    ensures Resolve("password") == Word
  {
    var m := ToLower("password");
    assert m == "password";
    MissingCharExcludes(m, "hello", 'h');
    MissingCharExcludes(m, "math", 'm');
    MissingCharExcludes(m, "video", 'v');
    MissingCharExcludes(m, "pdf", 'f');
    assert MatchAt(m, "word", 4);
  }

  /** The empty message includes no keyword and gets the fallback. */
  lemma ResolveEmpty()
    ensures Resolve("") == Fallback
  {
    MissingCharExcludes("", "hello", 'h');
    MissingCharExcludes("", "math", 'm');
    MissingCharExcludes("", "video", 'v');
    MissingCharExcludes("", "pdf", 'p');
    MissingCharExcludes("", "word", 'w');
    MissingCharExcludes("", "bye", 'b');
  }
}
