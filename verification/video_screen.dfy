/**
  The two values the video screen computes from its `videoUrl` route
  parameter (src/screens/VideoScreen.js): the URL handed to the player, with
  the loopback host rewritten for the Android emulator, and the file name
  shown under the header.
*/
module VideoScreen {
  import opened Wrappers
  import opened JsText

  const Localhost := "localhost"
  /** The address under which the Android emulator reaches its host machine. */
  const EmulatorHost := "10.0.2.2"
  /** The header line shown when there is no file name. */
  const DefaultSubtitle := "Video Player"

  // ---------------------------------------------------------------------------
  // fixedUrl

  /** `fixedUrl` for the platform named `os` (`Platform.OS`): a falsy URL is
      returned as it is; on Android the first "localhost" becomes "10.0.2.2". */
  function FixedUrl(videoUrl: Option<string>, os: string): (r: Option<string>)
    ensures videoUrl.None? || videoUrl.value == [] ==> r == videoUrl
    ensures os != "android" || (videoUrl.Some? && !Includes(videoUrl.value, Localhost)) ==> r == videoUrl
  {
    if videoUrl.None? || videoUrl.value == [] then videoUrl
    else if os == "android" && Includes(videoUrl.value, Localhost) then
      Some(ReplaceFirst(videoUrl.value, Localhost, EmulatorHost))
    else videoUrl
  }

  /** `i` is where `p` first occurs in `s`. */
  ghost predicate FirstOccurrence(s: string, p: string, i: nat) {
    MatchAt(s, p, i) && forall j :: 0 <= j < i ==> !MatchAt(s, p, j)
  }

  /** On Android, the first "localhost" and only it is replaced: the text
      before and after it is kept. */
  lemma FixedUrlReplacesFirst(url: string, i: nat)
    requires FirstOccurrence(url, Localhost, i)
    ensures FixedUrl(Some(url), "android") == Some(url[..i] + EmulatorHost + url[i + |Localhost|..])
  {
    MatchIncludes(url, Localhost, i);
    IncludesIffIndexOf(url, Localhost);
    var k := IndexOf(url, Localhost).value;
    assert !(k < i) && !(i < k);
  }

  /** A URL with exactly one "localhost" has none left after the Android
      rewrite. */
  lemma FixedUrlRemovesSoleLocalhost(url: string, i: nat)
    requires MatchAt(url, Localhost, i)
    requires forall j :: MatchAt(url, Localhost, j) ==> j == i
    ensures FixedUrl(Some(url), "android").Some?
    ensures !Includes(FixedUrl(Some(url), "android").value, Localhost)
  {
    FixedUrlReplacesFirst(url, i);
    var out := url[..i] + EmulatorHost + url[i + 9..];
    assert |out| == |url| - 1;
    assert forall m :: 0 <= m < |EmulatorHost| ==> !('a' <= EmulatorHost[m] <= 'z');
    assert forall n :: 0 <= n < |Localhost| ==> 'a' <= Localhost[n] <= 'z';
    forall j: nat | j <= |out| ensures !MatchAt(out, Localhost, j) {
      if j + 9 <= |out| {
        if j + 9 <= i {
          assert out[j..j + 9] == url[j..j + 9];
          assert !MatchAt(url, Localhost, j);
        } else if j >= i + 8 {
          assert out[j..j + 9] == url[j + 1..j + 10];
          assert !MatchAt(url, Localhost, j + 1);
        } else {
          var k := if i < j then j else i;
          assert out[k] == EmulatorHost[k - i];
          assert !('a' <= out[k] <= 'z');
          assert out[j..j + 9][k - j] == out[k];
          assert 'a' <= Localhost[k - j] <= 'z';
        }
      }
    }
  }

  // ---------------------------------------------------------------------------
  // fileName

  /** `fileName`: `""` for a falsy URL; otherwise the last non-empty part of
      `videoUrl.split("/")`, which is `undefined` (`None`) when there is none. */
  function FileName(videoUrl: Option<string>): Option<string> {
    if videoUrl.None? || videoUrl.value == [] then Some([])
    else
      var parts := NonEmpty(SplitOn(videoUrl.value, '/'));
      if parts == [] then None else Some(parts[|parts| - 1])
  }

  /** The header line under the title: the file name when it is non-empty. */
  function Subtitle(fileName: Option<string>): (line: string)
    ensures line != []
    ensures line == DefaultSubtitle || fileName == Some(line)
    ensures fileName.Some? && fileName.value != [] ==> line == fileName.value
  {
    if fileName.Some? && fileName.value != [] then fileName.value else DefaultSubtitle
  }

  ghost predicate AllSlashes(u: string) {
    forall k :: 0 <= k < |u| ==> u[k] == '/'
  }

  /** `f` sits at index `j` of `u`, right after a `/` or at the start, and only
      slashes follow it. */
  ghost predicate LastSegmentAt(u: string, f: string, j: nat) {
    && j + |f| <= |u|
    && u[j..j + |f|] == f
    && (j == 0 || u[j - 1] == '/')
    && forall k :: j + |f| <= k < |u| ==> u[k] == '/'
  }

  /** An independent description of the last segment of a path: a non-empty
      run without `/` that starts the string or follows a `/`, and after which
      there are only slashes. */
  ghost predicate IsLastSegment(u: string, f: string) {
    f != [] && '/' !in f && exists j: nat :: LastSegmentAt(u, f, j)
  }

  /** A string has at most one last segment. */
  lemma LastSegmentUnique(u: string, f: string, g: string)
    requires IsLastSegment(u, f) && IsLastSegment(u, g)
    ensures f == g
  {
    var jf: nat :| LastSegmentAt(u, f, jf);
    var jg: nat :| LastSegmentAt(u, g, jg);
    var ef, eg := jf + |f|, jg + |g|;
    assert u[ef - 1] == u[jf..ef][|f| - 1] == f[|f| - 1];
    assert u[eg - 1] == u[jg..eg][|g| - 1] == g[|g| - 1];
    assert ef == eg;
    assert jf == jg;
  }

  lemma NonEmptyCons(x: string, rest: seq<string>)
    ensures NonEmpty([x] + rest) == (if x == [] then [] else [x]) + NonEmpty(rest)
  {
    assert ([x] + rest)[1..] == rest;
  }

  /** A last segment of the text after a `/` is a last segment of the whole. */
  lemma LastSegmentAfterSlash(u: string, head: string, rest: string, f: string)
    requires u == head + ['/'] + rest && IsLastSegment(rest, f)
    ensures IsLastSegment(u, f)
  {
    var j: nat :| LastSegmentAt(rest, f, j);
    var n := |head| + 1;
    assert u[n + j..n + j + |f|] == rest[j..j + |f|];
    assert forall k :: n + j + |f| <= k < |u| ==> u[k] == rest[k - n];
    assert LastSegmentAt(u, f, n + j);
  }

  /** A part before the first `/` followed only by slashes is the last segment. */
  lemma LastSegmentBeforeSlashes(u: string, head: string, rest: string)
    requires u == head + ['/'] + rest && head != [] && '/' !in head && AllSlashes(rest)
    ensures IsLastSegment(u, head) && !AllSlashes(u)
  {
    assert forall k :: |head| <= k < |u| ==> u[k] == '/' by {
      assert forall k :: |head| < k < |u| ==> u[k] == rest[k - |head| - 1];
    }
    assert LastSegmentAt(u, head, 0);
    assert u[0] == head[0];
  }

  /** What `SegmentsOf` states, for a string and its `/`-separated parts. */
  ghost predicate SegmentsFacts(u: string, parts: seq<string>) {
    var segs := NonEmpty(parts);
    && (segs == [] <==> AllSlashes(u))
    && (segs != [] ==> IsLastSegment(u, segs[|segs| - 1]))
  }

  /** The induction step of `SegmentsOf`: one more part in front, before a `/`. */
  lemma SegmentsStep(u: string, head: string, rest: string, parts: seq<string>)
    requires u == head + ['/'] + rest && '/' !in head
    requires SegmentsFacts(rest, parts)
    ensures SegmentsFacts(u, [head] + parts)
  {
    NonEmptyCons(head, parts);
    var tail := NonEmpty(parts);
    var segs := NonEmpty([head] + parts);
    if tail != [] {
      LastSegmentAfterSlash(u, head, rest, tail[|tail| - 1]);
      assert segs[|segs| - 1] == tail[|tail| - 1];
      var k :| 0 <= k < |rest| && rest[k] != '/';
      assert u[|head| + 1 + k] == rest[k];
    } else if head == [] {
      assert forall k :: 0 < k < |u| ==> u[k] == rest[k - 1];
    } else {
      LastSegmentBeforeSlashes(u, head, rest);
    }
  }

  /** The non-empty `/`-separated parts of `u`: there are none exactly when `u`
      is made only of slashes, and otherwise the last of them is the last
      segment of `u`. */
  lemma {:induction false} SegmentsOf(u: string)
    ensures SegmentsFacts(u, SplitOn(u, '/'))
    decreases |u|
  {
    SplitOnUnfold(u, '/');
    if '/' !in u {
      NonEmptyCons(u, []);
      if u != [] {
        assert LastSegmentAt(u, u, 0);
        assert u[0] != '/';
      }
    } else {
      var i :| 0 <= i < |u| && u[i] == '/' && '/' !in u[..i] &&
               SplitOn(u, '/') == [u[..i]] + SplitOn(u[i + 1..], '/');
      assert u == u[..i] + ['/'] + u[i + 1..];
      SegmentsOf(u[i + 1..]);
      SegmentsStep(u, u[..i], u[i + 1..], SplitOn(u[i + 1..], '/'));
    }
  }

  /** `fileName` is the last segment of the URL: a non-empty name without `/`.
      It is `undefined` exactly for a URL made only of slashes, and the header
      then falls back to "Video Player". */
  lemma FileNameIsLastSegment(url: string)
    requires url != []
    ensures FileName(Some(url)).None? <==> AllSlashes(url)
    ensures FileName(Some(url)).Some? ==> IsLastSegment(url, FileName(Some(url)).value)
    ensures FileName(Some(url)).None? ==> Subtitle(FileName(Some(url))) == DefaultSubtitle
  {
    SegmentsOf(url);
  }

  /** An absent or empty URL gives the empty file name, and the default header. */
  lemma FileNameOfFalsyUrl(videoUrl: Option<string>)
    requires videoUrl.None? || videoUrl.value == []
    ensures FileName(videoUrl) == Some([])
    ensures Subtitle(FileName(videoUrl)) == DefaultSubtitle
  {
  }

  /** The last segment determines the file name. */
  lemma FileNameFromSegment(url: string, f: string)
    requires IsLastSegment(url, f)
    ensures FileName(Some(url)) == Some(f)
  {
    var j: nat :| LastSegmentAt(url, f, j);
    assert url[j] == f[0];
    FileNameIsLastSegment(url);
    LastSegmentUnique(url, f, FileName(Some(url)).value);
  }

  /** "http://host/uploads/lesson1.mp4" is named "lesson1.mp4". */
  lemma FileNameExample()
    ensures FileName(Some("http://host/uploads/lesson1.mp4")) == Some("lesson1.mp4")
  {
    var u := "http://host/uploads/lesson1.mp4";
    assert u[19] == '/';
    assert u[20..31] == "lesson1.mp4";
    assert LastSegmentAt(u, "lesson1.mp4", 20);
    FileNameFromSegment(u, "lesson1.mp4");
  }

  /** Repeated and trailing slashes are skipped: "a//b/" is named "b". */
  lemma FileNameSkipsSlashes()
    ensures FileName(Some("a//b/")) == Some("b")
  {
    var u := "a//b/";
    assert u[2] == '/' && u[3..4] == "b" && u[4] == '/';
    assert LastSegmentAt(u, "b", 3);
    FileNameFromSegment(u, "b");
  }

  /** "///" has no segment: its file name is `undefined` and the header shows
      "Video Player". */
  lemma FileNameOfSlashes()
    ensures FileName(Some("///")) == None
    ensures Subtitle(FileName(Some("///"))) == DefaultSubtitle
  {
    FileNameIsLastSegment("///");
  }
}
