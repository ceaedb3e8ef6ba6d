/**
  The JavaScript string operations the application relies on, over `string`
  (a sequence of UTF-16 code units is approximated by a sequence of chars):
  the `\s` class and `trim`, `toLowerCase`, `startsWith`, `endsWith`,
  `includes`, `indexOf`, `replace` with a string pattern, and `split` with a
  one-character separator.
*/
module JsText {
  import opened Wrappers

  /** ECMAScript WhiteSpace and LineTerminator code points: what `\s` matches
      and what `trim` removes. */
  predicate IsSpace(c: char) {
    || c == '\t' || c == '\n' || c == '\U{000B}' || c == '\U{000C}' || c == '\r'
    || c == ' ' || c == '\U{00A0}' || c == '\U{1680}'
    || ('\U{2000}' <= c <= '\U{200A}')
    || c == '\U{2028}' || c == '\U{2029}' || c == '\U{202F}' || c == '\U{205F}'
    || c == '\U{3000}' || c == '\U{FEFF}'
  }

  /** Every character of `s` is matched by `\S`. */
  predicate NoSpace(s: string) {
    forall i :: 0 <= i < |s| ==> !IsSpace(s[i])
  }

  /** Every character of `s` is matched by `\s`. */
  predicate AllSpace(s: string) {
    forall i :: 0 <= i < |s| ==> IsSpace(s[i])
  }

  /** A concatenation has no whitespace exactly when neither side has. */
  lemma NoSpaceAppend(a: string, b: string)
    ensures NoSpace(a + b) <==> NoSpace(a) && NoSpace(b)
  {
    if NoSpace(a + b) {
      assert forall i :: 0 <= i < |a| ==> a[i] == (a + b)[i];
      assert forall i :: 0 <= i < |b| ==> b[i] == (a + b)[|a| + i];
    }
  }

  /** Printable ASCII other than the space is never whitespace. */
  lemma PrintableNoSpace(s: string)
    requires forall i :: 0 <= i < |s| ==> '!' <= s[i] <= '~'
    ensures NoSpace(s)
  {
  }

  // ---------------------------------------------------------------------------
  // Case mapping (ASCII letters only)

  function LowerChar(c: char): char {
    if 'A' <= c <= 'Z' then (c as int + 32) as char else c
  }

  function UpperChar(c: char): char {
    if 'a' <= c <= 'z' then (c as int - 32) as char else c
  }

  /** `s.toLowerCase()`, restricted to the ASCII letters. */
  function ToLower(s: string): string {
    seq(|s|, i requires 0 <= i < |s| => LowerChar(s[i]))
  }

  /** `s.toUpperCase()`, restricted to the ASCII letters. */
  function ToUpper(s: string): string {
    seq(|s|, i requires 0 <= i < |s| => UpperChar(s[i]))
  }

  /** Lowercasing forgets any case change made before it. */
  lemma ToLowerOfToUpper(s: string)
    ensures ToLower(ToUpper(s)) == ToLower(s)
    ensures ToLower(ToLower(s)) == ToLower(s)
  {
    assert forall i :: 0 <= i < |s| ==> LowerChar(UpperChar(s[i])) == LowerChar(s[i]);
  }

  /** Lowercasing works character by character, so it distributes over `+`. */
  lemma ToLowerAppend(a: string, b: string)
    ensures ToLower(a + b) == ToLower(a) + ToLower(b)
  {
  }

  // ---------------------------------------------------------------------------
  // Prefixes, suffixes and occurrences

  /** `s.startsWith(p)` */
  predicate StartsWith(s: string, p: string) {
    |p| <= |s| && s[..|p|] == p
  }

  /** `s.endsWith(p)` */
  predicate EndsWith(s: string, p: string) {
    |p| <= |s| && s[|s| - |p|..] == p
  }

  /** Putting a prefix in front of `s` does not change whether it ends with
      `suf`, as long as the prefix lacks the first character of `suf`. */
  lemma EndsWithAfterPrefix(x: string, y: string, suf: string)
    requires suf != [] && suf[0] !in x
    ensures EndsWith(x + y, suf) <==> EndsWith(y, suf)
  {
    var xy := x + y;
    if |y| >= |suf| {
      assert xy[|xy| - |suf|..] == y[|y| - |suf|..];
    }
  }

  /** `p` occurs in `s` starting at index `i`. */
  predicate MatchAt(s: string, p: string, i: nat) {
    i + |p| <= |s| && s[i..i + |p|] == p
  }

  /** The search of `s.indexOf(p, k)`: the first occurrence of `p` at or after `k`. */
  function IndexFrom(s: string, p: string, k: nat): (r: Option<nat>)
    ensures r.Some? ==> k <= r.value && MatchAt(s, p, r.value)
    ensures r.Some? ==> forall j :: k <= j < r.value ==> !MatchAt(s, p, j)
    ensures r.None? ==> forall j :: k <= j ==> !MatchAt(s, p, j)
    decreases |s| - k
  {
    if |s| < k + |p| then None
    else if MatchAt(s, p, k) then Some(k)
    else IndexFrom(s, p, k + 1)
  }

  /** `s.indexOf(p)`, with `None` for -1. */
  function IndexOf(s: string, p: string): Option<nat> {
    IndexFrom(s, p, 0)
  }

  /** `s.includes(p)`: some occurrence of `p` lies inside `s`. */
  predicate Includes(s: string, p: string) {
    exists i: nat | i <= |s| :: MatchAt(s, p, i)
  }

  /** `includes` and `indexOf` agree: `s.includes(p)` holds exactly when
      `s.indexOf(p)` finds something. */
  lemma IncludesIffIndexOf(s: string, p: string)
    ensures Includes(s, p) <==> IndexOf(s, p).Some?
  {
    if Includes(s, p) {
      var i: nat :| i <= |s| && MatchAt(s, p, i);
      assert IndexOf(s, p).Some?;
    }
  }

  /** A string cannot include a pattern holding a character it lacks. */
  lemma MissingCharExcludes(s: string, p: string, c: char)
    requires c in p && c !in s
    ensures !Includes(s, p)
  {
  }

  /** An occurrence at a known index witnesses `includes`. */
  lemma MatchIncludes(s: string, p: string, i: nat)
    requires MatchAt(s, p, i)
    ensures Includes(s, p)
  {
  }

  /** `s.replace(p, r)` with a string pattern: only the first occurrence is
      replaced; without one, `s` is returned unchanged. */
  function ReplaceFirst(s: string, p: string, r: string): string {
    match IndexOf(s, p)
    case None => s
    case Some(i) => s[..i] + r + s[i + |p|..]
  }

  // ---------------------------------------------------------------------------
  // trim

  function TrimStart(s: string): string {
    if s != [] && IsSpace(s[0]) then TrimStart(s[1..]) else s
  }

  function TrimEnd(s: string): string {
    if s != [] && IsSpace(s[|s| - 1]) then TrimEnd(s[..|s| - 1]) else s
  }

  /** `s.trim()` */
  function Trim(s: string): string {
    TrimEnd(TrimStart(s))
  }

  lemma {:induction false} TrimStartEmptyIffBlank(s: string)
    ensures TrimStart(s) == [] <==> AllSpace(s)
    decreases |s|
  {
    if s != [] && IsSpace(s[0]) {
      TrimStartEmptyIffBlank(s[1..]);
      assert AllSpace(s) <==> AllSpace(s[1..]) by {
        if AllSpace(s[1..]) {
          forall i | 0 <= i < |s| ensures IsSpace(s[i]) {
            if i > 0 { assert s[i] == s[1..][i - 1]; }
          }
        }
      }
    }
  }

  lemma {:induction false} TrimEndOfNonSpaceStart(s: string)
    requires s != [] && !IsSpace(s[0])
    ensures TrimEnd(s) != []
    decreases |s|
  {
    if IsSpace(s[|s| - 1]) {
      TrimEndOfNonSpaceStart(s[..|s| - 1]);
    }
  }

  /** A string trims to `""` exactly when every character of it is
      whitespace (the empty string included). */
  lemma TrimEmptyIffBlank(s: string)
    ensures Trim(s) == [] <==> AllSpace(s)
  {
    TrimStartEmptyIffBlank(s);
    var t := TrimStart(s);
    if t != [] {
      assert !IsSpace(t[0]) by { TrimStartHead(s); }
      TrimEndOfNonSpaceStart(t);
    }
  }

  lemma {:induction false} TrimStartHead(s: string)
    ensures TrimStart(s) == [] || !IsSpace(TrimStart(s)[0])
    decreases |s|
  {
    if s != [] && IsSpace(s[0]) { TrimStartHead(s[1..]); }
  }

  // ---------------------------------------------------------------------------
  // Joining and splitting

  /** The parts laid end to end (`parts.join("")`). */
  function Concat(parts: seq<string>): string {
    if parts == [] then [] else parts[0] + Concat(parts[1..])
  }

  /** The parts with `sep` between neighbours (`parts.join(sep)`). */
  function Join(parts: seq<string>, sep: char): string
    requires parts != []
  {
    if |parts| == 1 then parts[0] else parts[0] + [sep] + Join(parts[1..], sep)
  }

  /** `s.split(sep)` for a one-character separator string. */
  function SplitOn(s: string, sep: char): (parts: seq<string>)
    ensures parts != []
    ensures Join(parts, sep) == s
    ensures forall i :: 0 <= i < |parts| ==> sep !in parts[i]
    decreases |s|
  {
    match IndexOf(s, [sep])
    case None =>
      assert sep !in s by {
        forall i | 0 <= i < |s| ensures s[i] != sep {
          assert !MatchAt(s, [sep], i);
        }
      }
      [s]
    case Some(i) =>
      assert s[i] == sep by { assert MatchAt(s, [sep], i); }
      assert sep !in s[..i] by {
        forall j | 0 <= j < i ensures s[j] != sep {
          assert !MatchAt(s, [sep], j);
        }
      }
      var rest := SplitOn(s[i + 1..], sep);
      assert s == s[..i] + [sep] + s[i + 1..];
      [s[..i]] + rest
  }

  /** How `split` unfolds: no separator gives one part; otherwise the text
      before the first separator is the first part. */
  lemma SplitOnUnfold(s: string, sep: char)
    ensures sep !in s ==> SplitOn(s, sep) == [s]
    ensures sep in s ==> exists i :: 0 <= i < |s| && s[i] == sep && sep !in s[..i] &&
                                    SplitOn(s, sep) == [s[..i]] + SplitOn(s[i + 1..], sep)
  {
    match IndexOf(s, [sep])
    case None =>
      assert forall i | 0 <= i < |s| :: s[i] != sep by {
        forall i | 0 <= i < |s| ensures s[i] != sep {
          assert !MatchAt(s, [sep], i);
        }
      }
    case Some(i) =>
      assert MatchAt(s, [sep], i);
      assert s[i] == s[i..i + 1][0] == sep;
      assert sep !in s[..i] by {
        forall j | 0 <= j < i ensures s[j] != sep {
          assert !MatchAt(s, [sep], j);
        }
      }
  }

  /** `parts.filter(Boolean)` on strings: drop the empty ones. */
  function NonEmpty(parts: seq<string>): (r: seq<string>)
    ensures forall i :: 0 <= i < |r| ==> r[i] != []
    ensures forall s :: s in r <==> s in parts && s != []
    ensures |r| <= |parts|
  {
    if parts == [] then []
    else if parts[0] == [] then NonEmpty(parts[1..])
    else [parts[0]] + NonEmpty(parts[1..])
  }

  /** Filtering keeps order: the kept parts of `p + q` are those of `p`
      followed by those of `q`. */
  lemma {:induction false} NonEmptyAppend(p: seq<string>, q: seq<string>)
    ensures NonEmpty(p + q) == NonEmpty(p) + NonEmpty(q)
  {
    if p == [] {
      assert p + q == q;
    } else {
      assert (p + q)[1..] == p[1..] + q;
      NonEmptyAppend(p[1..], q);
    }
  }
}
