/**
 * The folder-path check of `uploadFile`: the regular expression
 *   ^/[^/\0]+(?:/[^/\0]+)*[^/\0]$
 * stated once as the set of strings it matches (a ghost denotation, read
 * off the expression's structure) and once as a computable test over the
 * '/'-separated segments, and the two proved equal.
 */
module FolderPath {

  /** A character of the class `[^/\0]`. */
  predicate IsSegmentChar(c: char) {
    c != '/' && c != '\0'
  }

  /** A non-empty run of `[^/\0]` characters: what `[^/\0]+` matches. */
  predicate IsSegment(s: string) {
    |s| >= 1 && forall i :: 0 <= i < |s| ==> IsSegmentChar(s[i])
  }

  /** Joins parts with '/' between consecutive ones (JavaScript's `parts.join("/")`). */
  function Join(parts: seq<string>): (s: string)
    decreases |parts|
  {
    if parts == [] then []
    else if |parts| == 1 then parts[0]
    else parts[0] + "/" + Join(parts[1..])
  }

  /**
   * JavaScript's `s.split("/")`: the maximal '/'-free pieces between
   * separators, empty pieces included; never empty, and joining the
   * pieces gives back `s`.
   */
  function Split(s: string): (parts: seq<string>)
    ensures |parts| >= 1
    ensures forall i :: 0 <= i < |parts| ==> '/' !in parts[i]
    ensures Join(parts) == s
  {
    if s == [] then [[]]
    else
      var rest := Split(s[1..]);
      if s[0] == '/' then
        assert s == "/" + s[1..];
        [[]] + rest
      else
        var parts := [[s[0]] + rest[0]] + rest[1..];
        assert parts[1..] == rest[1..];
        assert s == [s[0]] + s[1..];
        parts
  }

  /**
   * What the regular expression matches: a '/', then one or more
   * '/'-separated non-empty segments, then ONE MORE segment character
   * glued to the end of the last segment.
   */
  ghost predicate RegexParse(s: string, segs: seq<string>, c: char) {
    && |segs| >= 1
    && (forall i :: 0 <= i < |segs| ==> IsSegment(segs[i]))
    && IsSegmentChar(c)
    && s == "/" + Join(segs) + [c]
  }

  ghost predicate MatchesFolderRegex(s: string) {
    exists segs: seq<string>, c: char :: RegexParse(s, segs, c)
  }

  /** Every segment of the split is a non-empty `[^/\0]` run and the last one has at least two characters. */
  predicate SegmentsAccepted(parts: seq<string>) {
    && |parts| >= 1
    && (forall i :: 0 <= i < |parts| ==> IsSegment(parts[i]))
    && |parts[|parts| - 1]| >= 2
  }

  /** `folderRegex.test(s)`, computed over the segments after the leading '/'. */
  predicate FolderRegexTest(s: string): (ok: bool)
    ensures ok ==> |s| >= 2 && s[0] == '/' && s[|s| - 1] != '/' && '\0' !in s
  {
    if |s| >= 1 && s[0] == '/' && SegmentsAccepted(Split(s[1..])) then
      JoinSegmentsChars(Split(s[1..]));
      assert s == "/" + s[1..];
      true
    else
      false
  }

  // ---------------------------------------------------------------- split / join

  lemma {:induction false} SplitNoSeparator(s: string)
    requires '/' !in s
    ensures Split(s) == [s]
  {
    if s != [] {
      SplitNoSeparator(s[1..]);
    }
  }

  /** Splitting around one more separator concatenates the pieces of both sides. */
  lemma {:induction false} SplitConcat(a: string, b: string)
    ensures Split(a + "/" + b) == Split(a) + Split(b)
  {
    if a == [] {
      assert a + "/" + b == "/" + b;
      assert ("/" + b)[1..] == b;
    } else {
      var s := a + "/" + b;
      assert s[0] == a[0];
      assert s[1..] == a[1..] + "/" + b;
      SplitConcat(a[1..], b);
    }
  }

  /** Splitting undoes joining '/'-free parts. */
  lemma {:induction false} SplitJoin(parts: seq<string>)
    requires |parts| >= 1
    requires forall i :: 0 <= i < |parts| ==> '/' !in parts[i]
    ensures Split(Join(parts)) == parts
  {
    if |parts| == 1 {
      SplitNoSeparator(parts[0]);
    } else {
      SplitJoin(parts[1..]);
      SplitConcat(parts[0], Join(parts[1..]));
      SplitNoSeparator(parts[0]);
    }
  }

  /** Appending a character to a joined list appends it to the last part. */
  lemma {:induction false} JoinAppendChar(parts: seq<string>, c: char)
    requires |parts| >= 1
    ensures Join(parts) + [c] == Join(parts[..|parts| - 1] + [parts[|parts| - 1] + [c]])
  {
    if |parts| > 1 {
      var n := |parts|;
      var glued := parts[..n - 1] + [parts[n - 1] + [c]];
      JoinAppendChar(parts[1..], c);
      assert glued[1..] == parts[1..][..n - 2] + [parts[1..][n - 2] + [c]];
    }
  }

  // ---------------------------------------------------------------- the regex

  /** The computable test accepts exactly the strings the regular expression matches. */
  lemma FolderRegexTestMatchesRegex(s: string)
    ensures FolderRegexTest(s) <==> MatchesFolderRegex(s)
  {
    if FolderRegexTest(s) {
      var parts := Split(s[1..]);
      var n := |parts|;
      var last := parts[n - 1];
      var segs := parts[..n - 1] + [last[..|last| - 1]];
      var c := last[|last| - 1];
      assert segs[..n - 1] + [segs[n - 1] + [c]] == parts by {
        assert last[..|last| - 1] + [c] == last;
      }
      JoinAppendChar(segs, c);
      assert s == "/" + s[1..];
      assert forall i :: 0 <= i < |segs| ==> IsSegment(segs[i]) by {
        forall i | 0 <= i < |segs| ensures IsSegment(segs[i]) {
          if i < n - 1 {
            assert segs[i] == parts[i];
          } else {
            assert forall k :: 0 <= k < |segs[i]| ==> segs[i][k] == last[k];
          }
        }
      }
      assert RegexParse(s, segs, c);
    }
    if MatchesFolderRegex(s) {
      var segs, c :| RegexParse(s, segs, c);
      var n := |segs|;
      var parts := segs[..n - 1] + [segs[n - 1] + [c]];
      JoinAppendChar(segs, c);
      assert s[1..] == Join(parts);
      assert forall i :: 0 <= i < |parts| ==> IsSegment(parts[i]) by {
        forall i | 0 <= i < |parts| ensures IsSegment(parts[i]) {
          if i < n - 1 {
            assert parts[i] == segs[i];
          }
        }
      }
      SplitJoin(parts);
      assert SegmentsAccepted(parts);
    }
  }

  /**
   * The length quirk: a folder whose last segment is one character long is
   * never accepted, whatever comes before it (so "/a" and "/x/b" fail).
   */
  lemma ShortLastSegmentRejected(prefix: string, c: char)
    ensures !FolderRegexTest(prefix + "/" + [c])
  {
    var s := prefix + "/" + [c];
    if |prefix| >= 1 && prefix[0] == '/' {
      assert s[1..] == prefix[1..] + "/" + [c];
      SplitConcat(prefix[1..], [c]);
      if c == '/' {
        assert Split([c]) == [[]] + Split([]);
      } else {
        SplitNoSeparator([c]);
      }
    } else if prefix == [] {
      assert s[1..] == [c];
      if c == '/' {
        assert Split([c]) == [[]] + Split([]);
      } else {
        SplitNoSeparator([c]);
      }
    }
  }

  /** A trailing '/' is never accepted. */
  lemma TrailingSlashRejected(prefix: string)
    ensures !FolderRegexTest(prefix + "/")
  {
    var s := prefix + "/";
    if |prefix| >= 1 && prefix[0] == '/' {
      assert s[1..] == prefix[1..] + "/" + [];
      SplitConcat(prefix[1..], []);
    }
  }

  /** An accepted folder contains no NUL character and no "//". */
  lemma {:induction false} AcceptedHasNoNulOrEmptySegment(s: string)
    requires FolderRegexTest(s)
    ensures '\0' !in s
    ensures forall i :: 0 <= i < |s| - 1 ==> !(s[i] == '/' && s[i + 1] == '/')
  {
    var parts := Split(s[1..]);
    JoinSegmentsChars(parts);
    assert s == "/" + s[1..];
    assert s[1..] == Join(parts);
  }

  /** The characters of a join of segments: no NUL, no two '/' in a row, and no '/' first. */
  lemma {:induction false} JoinSegmentsChars(parts: seq<string>)
    requires |parts| >= 1
    requires forall i :: 0 <= i < |parts| ==> IsSegment(parts[i])
    ensures var j := Join(parts);
      && |j| >= 1 && j[0] != '/' && j[|j| - 1] != '/'
      && '\0' !in j
      && forall i :: 0 <= i < |j| - 1 ==> !(j[i] == '/' && j[i + 1] == '/')
  {
    var p := parts[0];
    assert IsSegment(p);
    assert forall k :: 0 <= k < |p| ==> IsSegmentChar(p[k]);
    if |parts| > 1 {
      JoinSegmentsChars(parts[1..]);
      var r := Join(parts[1..]);
      var j := p + "/" + r;
      assert Join(parts) == j;
      forall k | 0 <= k < |j| ensures j[k] != '\0' {
        if k < |p| { assert j[k] == p[k]; }
        else if k > |p| { assert j[k] == r[k - |p| - 1]; }
      }
      forall i | 0 <= i < |j| - 1 ensures !(j[i] == '/' && j[i + 1] == '/') {
        if i < |p| { assert j[i] == p[i]; }
        else if i == |p| { assert j[i + 1] == r[0]; }
        else { assert j[i] == r[i - |p| - 1] && j[i + 1] == r[i - |p|]; }
      }
    }
  }

  /** The examples of the quirk, decided. */
  lemma FolderExamples()
    ensures FolderRegexTest("/ab") && FolderRegexTest("/x/bc")
    ensures !FolderRegexTest("/a") && !FolderRegexTest("/x/b")
    ensures !FolderRegexTest("ab") && !FolderRegexTest("/ab/") && !FolderRegexTest("//ab")
  {
    ShortLastSegmentRejected("", 'a');
    ShortLastSegmentRejected("/x", 'b');
    TrailingSlashRejected("/ab");
    SplitNoSeparator("ab");
    SplitConcat("x", "bc");
    SplitNoSeparator("x");
    SplitNoSeparator("bc");
    SplitConcat("", "ab");
    assert "/ab"[1..] == "ab";
    assert "/x/bc"[1..] == "x" + "/" + "bc";
    assert "//ab"[1..] == "" + "/" + "ab";
  }
}
