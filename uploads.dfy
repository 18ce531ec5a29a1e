/** The upload allow-lists and the two extension validators of the application. */
module Uploads {
  import opened Wrappers

  /** Extensions accepted for a resume upload. */
  const RESUME_EXTENSIONS: set<string> := {"pdf", "doc", "docx"}

  /** Extensions accepted for a job-description screenshot upload. */
  const SCREENSHOT_EXTENSIONS: set<string> := {"jpg", "jpeg", "png", "gif"}

  /** The position of the last occurrence of `c` in `s`, if any. */
  function LastIndexOf(s: string, c: char): (r: Option<nat>)
    ensures r.None? <==> c !in s
    ensures r.Some? ==> r.value < |s| && s[r.value] == c && c !in s[r.value + 1..]
  {
    if |s| == 0 then None
    else if s[|s| - 1] == c then Some(|s| - 1)
    else
      var init := s[..|s| - 1];
      assert s == init + [s[|s| - 1]];
      var r := LastIndexOf(init, c);
      if r.Some? then
        assert s[r.value + 1..] == init[r.value + 1..] + [s[|s| - 1]];
        r
      else r
  }

  /**
   * Python's `s.rsplit('.', 1)`: the whole string when it holds no dot,
   * otherwise the text before and the text after its last dot.
   */
  function RSplitDot(s: string): (parts: seq<string>)
    ensures '.' !in s ==> parts == [s]
    ensures '.' in s ==> |parts| == 2 && parts[0] + "." + parts[1] == s && '.' !in parts[1]
  {
    match LastIndexOf(s, '.')
    case None => [s]
    case Some(i) =>
      assert s == s[..i] + "." + s[i + 1..];
      [s[..i], s[i + 1..]]
  }

  /** Lower-cases one ASCII letter; every other character is kept. */
  function ToLower(c: char): (r: char)
    ensures !('A' <= r <= 'Z')
    ensures 'A' <= c <= 'Z' ==> 'a' <= r <= 'z' && r as int - c as int == 'a' as int - 'A' as int
    ensures !('A' <= c <= 'Z') ==> r == c
  {
    if 'A' <= c <= 'Z' then (c as int + ('a' as int - 'A' as int)) as char else c
  }

  /** Lower-cases a string character by character. */
  function Lower(s: string): (r: string)
    ensures |r| == |s|
    ensures forall i :: 0 <= i < |s| ==> r[i] == ToLower(s[i])
  {
    if s == [] then [] else [ToLower(s[0])] + Lower(s[1..])
  }

  /** True iff `filename` has an extension whose lower-cased form is in `allowed`. */
  predicate HasAllowedExtension(filename: string, allowed: set<string>)
    ensures HasAllowedExtension(filename, allowed) ==> '.' in filename
  {
    '.' in filename && Lower(RSplitDot(filename)[1]) in allowed
  }

  /** `allowed_resume_file`. */
  predicate AllowedResumeFile(filename: string)
    ensures AllowedResumeFile(filename) ==> '.' in filename && |filename| >= 4
  {
    ShortExtensionsRejected(filename, RESUME_EXTENSIONS);
    HasAllowedExtension(filename, RESUME_EXTENSIONS)
  }

  /** `allowed_screenshot_file`. */
  predicate AllowedScreenshotFile(filename: string)
    ensures AllowedScreenshotFile(filename) ==> '.' in filename && |filename| >= 4
  {
    ShortExtensionsRejected(filename, SCREENSHOT_EXTENSIONS);
    HasAllowedExtension(filename, SCREENSHOT_EXTENSIONS)
  }

  /** When every allowed extension has at least three characters, an accepted name has at least four. */
  lemma ShortExtensionsRejected(filename: string, allowed: set<string>)
    requires forall e :: e in allowed ==> |e| >= 3
    ensures HasAllowedExtension(filename, allowed) ==> |filename| >= 4
  {
    if HasAllowedExtension(filename, allowed) {
      var parts := RSplitDot(filename);
      assert |Lower(parts[1])| == |parts[1]|;
      assert |filename| == |parts[0]| + 1 + |parts[1]|;
    }
  }

  /** Splitting `head + "." + ext` at its last dot gives back `head` and `ext` when `ext` holds no dot. */
  lemma SplitAtLastDot(head: string, ext: string)
    requires '.' !in ext
    ensures RSplitDot(head + "." + ext) == [head, ext]
  {
    var s := head + "." + ext;
    var parts := RSplitDot(s);
    assert s[|head|] == '.';
    var i := LastIndexOf(s, '.').value;
    assert i == |head|;
    assert s[..i] == head;
    assert s[i + 1..] == ext;
  }

  /**
   * The validator's meaning: a name is accepted iff it is some `head`, a dot and an
   * extension without dots whose lower-cased form is allowed.
   */
  lemma HasAllowedExtensionIff(filename: string, allowed: set<string>)
    ensures HasAllowedExtension(filename, allowed) <==>
      exists head: string, ext: string ::
        filename == head + "." + ext && '.' !in ext && Lower(ext) in allowed
  {
    if HasAllowedExtension(filename, allowed) {
      var parts := RSplitDot(filename);
      assert filename == parts[0] + "." + parts[1] && '.' !in parts[1] && Lower(parts[1]) in allowed;
    } else {
      forall head: string, ext: string | filename == head + "." + ext && '.' !in ext
        ensures Lower(ext) !in allowed
      {
        SplitAtLastDot(head, ext);
      }
    }
  }

  /**
   * `allowed_resume_file(f)` holds iff `f` contains a dot and the text after its
   * last dot, lower-cased, is `pdf`, `doc` or `docx`.
   */
  lemma AllowedResumeFileIff(filename: string)
    ensures AllowedResumeFile(filename) <==>
      exists head: string, ext: string ::
        filename == head + "." + ext && '.' !in ext && Lower(ext) in RESUME_EXTENSIONS
  {
    HasAllowedExtensionIff(filename, RESUME_EXTENSIONS);
  }

  /**
   * `allowed_screenshot_file(f)` holds iff `f` contains a dot and the text after its
   * last dot, lower-cased, is `jpg`, `jpeg`, `png` or `gif`.
   */
  lemma AllowedScreenshotFileIff(filename: string)
    ensures AllowedScreenshotFile(filename) <==>
      exists head: string, ext: string ::
        filename == head + "." + ext && '.' !in ext && Lower(ext) in SCREENSHOT_EXTENSIONS
  {
    HasAllowedExtensionIff(filename, SCREENSHOT_EXTENSIONS);
  }

  /** Only the text after the final dot counts, whatever dots come before it. */
  lemma LastSegmentDecides(head: string, ext: string, allowed: set<string>)
    requires '.' !in ext
    ensures HasAllowedExtension(head + "." + ext, allowed) <==> Lower(ext) in allowed
  {
    SplitAtLastDot(head, ext);
  }

  /** A name without a dot is rejected by both validators. */
  lemma NoDotRejected(filename: string)
    requires '.' !in filename
    ensures !AllowedResumeFile(filename) && !AllowedScreenshotFile(filename)
  {
  }

  /** A name ending in a dot is rejected: the empty extension is on neither list. */
  lemma TrailingDotRejected(head: string)
    ensures !AllowedResumeFile(head + ".") && !AllowedScreenshotFile(head + ".")
  {
    assert head + "." == head + "." + "";
    SplitAtLastDot(head, "");
  }

  /** Lower-casing commutes with concatenation. */
  lemma LowerAppend(a: string, b: string)
    ensures Lower(a + b) == Lower(a) + Lower(b)
  {
    assert forall i :: 0 <= i < |a + b| ==> Lower(a + b)[i] == (Lower(a) + Lower(b))[i];
  }

  /** Lower-casing is idempotent. */
  lemma LowerIdempotent(s: string)
    ensures Lower(Lower(s)) == Lower(s)
  {
    assert forall i :: 0 <= i < |s| ==> Lower(Lower(s))[i] == Lower(s)[i];
  }

  /** Lower-casing neither adds nor removes dots. */
  lemma LowerKeepsDots(s: string)
    ensures '.' in Lower(s) <==> '.' in s
  {
    if '.' in s {
      var i :| 0 <= i < |s| && s[i] == '.';
      assert Lower(s)[i] == '.';
    }
  }

  /** The check is case-insensitive: lower-casing the whole name never changes the verdict. */
  lemma CaseInsensitive(filename: string, allowed: set<string>)
    ensures HasAllowedExtension(Lower(filename), allowed) == HasAllowedExtension(filename, allowed)
  {
    LowerKeepsDots(filename);
    if '.' in filename {
      var parts := RSplitDot(filename);
      var head, ext := parts[0], parts[1];
      LowerAppend(head + ".", ext);
      LowerAppend(head, ".");
      assert Lower(".") == ".";
      LowerKeepsDots(ext);
      SplitAtLastDot(Lower(head), Lower(ext));
      LowerIdempotent(ext);
    }
  }

  /** No name is accepted both as a resume and as a screenshot. */
  lemma ListsDisjoint(filename: string)
    ensures !(AllowedResumeFile(filename) && AllowedScreenshotFile(filename))
  {
  }

  /** Evaluates `Lower` on a three-letter string. */
  lemma LowerOf3(s: string, t: string)
    requires |s| == 3 && |t| == 3
    requires ToLower(s[0]) == t[0] && ToLower(s[1]) == t[1] && ToLower(s[2]) == t[2]
    ensures Lower(s) == t
  {
    var r := Lower(s);
    assert r[0] == t[0] && r[1] == t[1] && r[2] == t[2];
  }
}
