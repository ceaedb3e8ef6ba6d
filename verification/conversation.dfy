/**
  The backend and the chat screen together: how the replies of
  backend/server.js come out when src/screens/ChatScreen.js renders them, and
  where a tap on their one link leads (src/screens/VideoScreen.js for the
  video).
*/
module Conversation {
  import opened Wrappers
  import opened JsText
  import opened ReplyResolver
  import opened ChatScreen
  import opened VideoScreen

  /** The backend's address: printable, starting with "http", with a `.`
      at index 9 and no `c`. */
  lemma FileServerShape()
    ensures NoSpace(FileServer) && StartsWith(FileServer, "http")
    ensures |FileServer| == 20 && FileServer[9] == '.' && 'c' !in FileServer
  {
    PrintableNoSpace(FileServer);
  }

  /** A file the backend serves, at a path without whitespace, is one run of
      non-whitespace and a link to itself: its `.` in "10.0.2.2" has
      non-whitespace on both sides, and it already starts with "http". */
  lemma ServedFileLink(path: string)
    requires NoSpace(path)
    ensures NoSpace(FileServer + path)
    ensures RenderText(FileServer + path) == [Tappable(FileServer + path, FileServer + path)]
  {
    var url := FileServer + path;
    FileServerShape();
    NoSpaceAppend(FileServer, path);
    assert url[9] == '.';
    DotWitness(url, 9);
    assert StartsWith(url, "http") by {
      assert url[..4] == FileServer[..4];
    }
    RenderSingleRun(url);
  }

  /** A word the chat screen shows as plain text: non-empty, no whitespace
      and no `.`. */
  predicate PlainWord(word: string) {
    word != [] && NoSpace(word) && '.' !in word
  }

  /** The words, each followed by one space. */
  function Words(words: seq<string>): string {
    if words == [] then [] else words[0] + " " + Words(words[1..])
  }

  /** The segments of words each followed by one space: the word and the space,
      both inert. */
  function InertWords(words: seq<string>): seq<Segment> {
    if words == [] then [] else [Inert(words[0]), Inert(" ")] + InertWords(words[1..])
  }

  /** A word without `.`, one space, and a text that starts with a
      non-whitespace character. */
  lemma RenderWord(text: string, word: string, rest: string)
    requires text == word + " " + rest
    requires PlainWord(word)
    requires rest != [] && !IsSpace(rest[0])
    ensures RenderText(text) == [Inert(word), Inert(" ")] + RenderText(rest)
  {
    if |word| >= 2 {
      NoInnerDot(word);
    }
    SpaceRunNotLink(" ");
    RenderCons(text, word, " ", rest);
  }

  /** The first word and its space, then the rest of the sentence. */
  lemma SentenceHead(words: seq<string>, url: string)
    requires words != []
    ensures Words(words) + url == words[0] + " " + (Words(words[1..]) + url)
    ensures InertWords(words) + [Tappable(url, url)]
         == [Inert(words[0]), Inert(" ")] + (InertWords(words[1..]) + [Tappable(url, url)])
  {
  }

  /** A sentence of plain words before a text that starts with a
      non-whitespace character starts with a non-whitespace character. */
  lemma SentenceStart(words: seq<string>, url: string)
    requires AllPlain(words)
    requires url != [] && !IsSpace(url[0])
    ensures Words(words) + url != [] && !IsSpace((Words(words) + url)[0])
  {
    if words != [] {
      SentenceHead(words, url);
      assert PlainWord(words[0]);
      assert (Words(words) + url)[0] == words[0][0];
    } else {
      assert Words(words) + url == url;
    }
  }

  /** Plain words, each followed by one space, and then a lone link: every word
      and space is inert and the link is the only tappable segment. */
  lemma {:induction false} RenderSentence(words: seq<string>, url: string)
    requires AllPlain(words)
    requires url != [] && !IsSpace(url[0])
    requires RenderText(url) == [Tappable(url, url)]
    ensures RenderText(Words(words) + url) == InertWords(words) + [Tappable(url, url)]
  {
    if words != [] {
      var rest := Words(words[1..]) + url;
      SentenceHead(words, url);
      SentenceStart(words[1..], url);
      RenderWord(Words(words) + url, words[0], rest);
      RenderSentence(words[1..], url);
    } else {
      assert Words(words) + url == url;
      assert InertWords(words) + [Tappable(url, url)] == [Tappable(url, url)];
    }
  }

  /** The paths of the three files the backend links to. */
  lemma FilePathsPrintable()
    ensures NoSpace(VideoPath) && NoSpace(PdfPath) && NoSpace(WordPath)
  {
    PrintableNoSpace(VideoPath);
    PrintableNoSpace(PdfPath);
    PrintableNoSpace(WordPath);
  }

  /** The words before the link in the three file replies. */
  const VideoWords := ["Here\U{2019}s", "your", "lesson", "video:"]
  const PdfWords := ["Here\U{2019}s", "your", "PDF:"]
  const WordWords := ["Here\U{2019}s", "your", "Word", "file:"]

  /** Every one of the words is plain. */
  predicate AllPlain(words: seq<string>) {
    forall i :: 0 <= i < |words| ==> PlainWord(words[i])
  }

  /** The words of the three file replies are plain. */
  lemma ReplyWordsPlain()
    ensures AllPlain(VideoWords) && AllPlain(PdfWords) && AllPlain(WordWords)
  {
    assert NoSpace("Here\U{2019}s");
    PrintableNoSpace("your");
    PrintableNoSpace("lesson");
    PrintableNoSpace("video:");
    PrintableNoSpace("PDF:");
    PrintableNoSpace("Word");
    PrintableNoSpace("file:");
  }

  /** Each file reply is its words and then its URL. */
  lemma VideoSentence()
    ensures VideoReply == Words(VideoWords) + VideoUrl
  {
    assert Words(["Here\U{2019}s", "your", "lesson", "video:"]) == "Here\U{2019}s your lesson video: ";
  }

  lemma PdfSentence()
    ensures PdfReply == Words(PdfWords) + PdfUrl
  {
    assert Words(["Here\U{2019}s", "your", "PDF:"]) == "Here\U{2019}s your PDF: ";
  }

  lemma WordSentence()
    ensures WordReply == Words(WordWords) + WordUrl
  {
    assert Words(["Here\U{2019}s", "your", "Word", "file:"]) == "Here\U{2019}s your Word file: ";
  }

  /** The video reply renders as four inert words, each followed by a space,
      and one link, to the video. */
  lemma VideoReplyRendering()
    ensures RenderText(VideoReply) == InertWords(VideoWords) + [Tappable(VideoUrl, VideoUrl)]
  {
    VideoSentence();
    ReplyWordsPlain();
    FilePathsPrintable();
    ServedFileLink(VideoPath);
    RenderSentence(VideoWords, VideoUrl);
  }

  /** The PDF reply renders as three inert words and one link, to the PDF. */
  lemma PdfReplyRendering()
    ensures RenderText(PdfReply) == InertWords(PdfWords) + [Tappable(PdfUrl, PdfUrl)]
  {
    PdfSentence();
    ReplyWordsPlain();
    FilePathsPrintable();
    ServedFileLink(PdfPath);
    RenderSentence(PdfWords, PdfUrl);
  }

  /** The Word-file reply renders as four inert words and one link, to the
      .docx file. */
  lemma WordReplyRendering()
    ensures RenderText(WordReply) == InertWords(WordWords) + [Tappable(WordUrl, WordUrl)]
  {
    WordSentence();
    ReplyWordsPlain();
    FilePathsPrintable();
    ServedFileLink(WordPath);
    RenderSentence(WordWords, WordUrl);
  }

  /** The video, PDF and Word-file URLs end in ".mp4", ".pdf" and ".docx". */
  lemma FileUrlEndings()
    ensures EndsWith(VideoUrl, ".mp4") && EndsWith(PdfUrl, ".pdf") && EndsWith(WordUrl, ".docx")
  {
    assert VideoUrl[35..] == VideoPath[15..] == ".mp4";
    assert PdfUrl[33..] == PdfPath[13..] == ".pdf";
    assert WordUrl[33..] == WordPath[13..] == ".docx";
  }

  /** A tap on the video link opens the video screen. */
  lemma VideoLinkTap()
    ensures HandleLinkPress(VideoUrl) == ShowVideo(VideoUrl)
  {
    ToLowerAppend(FileServer, VideoPath);
    var p := ToLower(VideoPath);
    assert p[15..] == ".mp4" by {
      assert p[15] == '.' && p[16] == 'm' && p[17] == 'p' && p[18] == '4';
    }
    assert ToLower(VideoUrl)[|ToLower(VideoUrl)| - 4..] == p[15..];
  }

  /** The video screen plays the video's URL unchanged on any platform: it
      has no "localhost" to rewrite. */
  lemma VideoUrlKept(os: string)
    ensures FixedUrl(Some(VideoUrl), os) == Some(VideoUrl)
  {
    FileServerShape();
    assert 'c' !in VideoPath;
    MissingCharExcludes(VideoUrl, Localhost, 'c');
  }

  /** The video screen names the video's file "lesson1.mp4" and shows that
      name under its title. */
  lemma VideoFileName()
    ensures FileName(Some(VideoUrl)) == Some("lesson1.mp4")
    ensures Subtitle(FileName(Some(VideoUrl))) == "lesson1.mp4"
  {
    assert VideoPath[7] == '/' && VideoPath[8..] == "lesson1.mp4";
    assert VideoUrl[27] == VideoPath[7];
    assert VideoUrl[28..] == VideoPath[8..];
    assert LastSegmentAt(VideoUrl, "lesson1.mp4", 28);
    FileNameFromSegment(VideoUrl, "lesson1.mp4");
  }

  /** A tap on the PDF link hands that URL to the platform's opener. */
  lemma PdfLinkTap()
    ensures HandleLinkPress(PdfUrl) == OpenExternally(PdfUrl)
  {
    ToLowerAppend(FileServer, PdfPath);
    assert ToLower(PdfUrl)[36] == ToLower(PdfPath)[16] == 'f';
  }

  /** A tap on the Word-file link hands that URL to the platform's opener. */
  lemma WordLinkTap()
    ensures HandleLinkPress(WordUrl) == OpenExternally(WordUrl)
  {
    ToLowerAppend(FileServer, WordPath);
    assert ToLower(WordUrl)[37] == ToLower(WordPath)[17] == 'x';
  }

  /** Plain words and their spaces do nothing when tapped. */
  lemma {:induction false} InertWordsTaps(words: seq<string>)
    ensures |InertWords(words)| == 2 * |words|
    ensures forall i :: 0 <= i < |InertWords(words)| ==> Press(InertWords(words)[i]) == None
  {
    if words != [] {
      InertWordsTaps(words[1..]);
    }
  }

  /** Of the nine segments of the video reply only the last, its link, reacts
      to a tap, and it opens the video screen on the video's URL. */
  lemma VideoReplyTaps()
    ensures |RenderText(VideoReply)| == 9
    ensures forall i :: 0 <= i < 8 ==> Press(RenderText(VideoReply)[i]) == None
    ensures Press(RenderText(VideoReply)[8]) == Some(ShowVideo(VideoUrl))
  {
    VideoReplyRendering();
    InertWordsTaps(VideoWords);
    VideoLinkTap();
  }

  /** Of the seven segments of the PDF reply only the link reacts to a tap,
      and it hands the PDF's URL to the platform's opener. */
  lemma PdfReplyTaps()
    ensures |RenderText(PdfReply)| == 7
    ensures forall i :: 0 <= i < 6 ==> Press(RenderText(PdfReply)[i]) == None
    ensures Press(RenderText(PdfReply)[6]) == Some(OpenExternally(PdfUrl))
  {
    PdfReplyRendering();
    InertWordsTaps(PdfWords);
    PdfLinkTap();
  }

  /** Of the nine segments of the Word-file reply only the link reacts to a
      tap, and it hands the .docx URL to the platform's opener. */
  lemma WordReplyTaps()
    ensures |RenderText(WordReply)| == 9
    ensures forall i :: 0 <= i < 8 ==> Press(RenderText(WordReply)[i]) == None
    ensures Press(RenderText(WordReply)[8]) == Some(OpenExternally(WordUrl))
  {
    WordReplyRendering();
    InertWordsTaps(WordWords);
    WordLinkTap();
  }
}
