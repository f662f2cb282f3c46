/** Path strings as the session store sees them: the final component, its
    suffix, the recognised video extensions, and the traversal and
    containment check applied to every path read back from the state file
    (`VideoScanner._validate_path`). Paths are POSIX strings with `/` as
    the separator. */
module Paths {
  import opened Common

  /** A path after `Path.resolve`: its components, root first. */
  type Resolved = seq<string>

  /** `Path.resolve` as seen by the store: the resolved components, or
      `None` when resolution raises `ValueError` or `OSError` (an embedded
      NUL, a failing `stat`). It depends on the file system and the working
      directory, so the model takes it as a parameter. */
  type Resolver = string -> Option<Resolved>

  /** The extensions the scanner accepts, lower-case, each with its dot. */
  const VideoExtensions: seq<string> := [".mp4", ".mkv", ".avi", ".mov", ".webm"]

  /** Index of the last occurrence of `c` in `s`, or -1 (`str.rfind`). */
  function LastIndexOf(s: string, c: char): (r: int)
    ensures -1 <= r < |s|
    ensures 0 <= r ==> s[r] == c
    ensures forall j :: r < j < |s| ==> s[j] != c
  {
    if s == [] then -1
    else if s[|s| - 1] == c then |s| - 1
    else LastIndexOf(s[..|s| - 1], c)
  }

  /** `Path.name`: the text after the last separator. */
  function BaseName(path: string): (r: string)
    ensures |r| <= |path| && r == path[|path| - |r|..] && '/' !in r
    ensures |r| == |path| || path[|path| - |r| - 1] == '/'
  {
    path[LastIndexOf(path, '/') + 1..]
  }

  /** `Path.suffix` of a final component: from its last dot to the end,
      provided that dot is neither the first nor the last character;
      otherwise empty. So ".mp4" (a hidden file) and "movie." have none. */
  function Suffix(name: string): string
  {
    var i := LastIndexOf(name, '.');
    if 0 < i < |name| - 1 then name[i..] else ""
  }

  /** `str.lower()` restricted to ASCII letters: an upper-case letter
      becomes the same letter in lower case, anything else is kept. */
  function LowerChar(c: char): (r: char)
    ensures !('A' <= r <= 'Z')
    ensures 'A' <= c <= 'Z' ==> 'a' <= r <= 'z' && r as int - 'a' as int == c as int - 'A' as int
    ensures !('A' <= c <= 'Z') ==> r == c
  {
    if 'A' <= c <= 'Z' then (c as int + 32) as char else c
  }

  function Lower(s: string): (r: string)
    ensures |r| == |s|
    ensures forall i :: 0 <= i < |s| ==> r[i] == LowerChar(s[i])
  {
    seq(|s|, i requires 0 <= i < |s| => LowerChar(s[i]))
  }

  /** The scanner's test on a file name: `suffix.lower() in video_extensions`. */
  predicate HasVideoSuffix(name: string)
  {
    Lower(Suffix(name)) in VideoExtensions
  }

  /** Independent reading of the same test: the name ends, ignoring ASCII
      case, in one of the extensions, and something precedes it. */
  predicate EndsWithVideoExtension(name: string)
  {
    exists ext :: ext in VideoExtensions && |ext| < |name| && Lower(name[|name| - |ext|..]) == ext
  }

  lemma LowerPreservesDot(c: char)
    ensures LowerChar(c) == '.' <==> c == '.'
  {
  }

  /** The suffix test and the "ends with" reading agree on every name. */
  lemma VideoSuffixIffEndsWith(name: string)
    ensures HasVideoSuffix(name) <==> EndsWithVideoExtension(name)
  {
    if HasVideoSuffix(name) {
      SuffixEndsWith(name);
    }
    if EndsWithVideoExtension(name) {
      var ext :| ext in VideoExtensions && |ext| < |name| && Lower(name[|name| - |ext|..]) == ext;
      EndsWithSuffix(name, ext);
    }
  }

  lemma SuffixEndsWith(name: string)
    requires HasVideoSuffix(name)
    ensures EndsWithVideoExtension(name)
  {
  }

  lemma EndsWithSuffix(name: string, ext: string)
    requires ext in VideoExtensions && |ext| < |name| && Lower(name[|name| - |ext|..]) == ext
    ensures HasVideoSuffix(name)
  {
    var k := |name| - |ext|;
    var tail := name[k..];
    assert ext[0] == '.' && forall j :: 0 < j < |ext| ==> ext[j] != '.';
    assert LowerChar(tail[0]) == '.';
    LowerPreservesDot(tail[0]);
    forall j | k < j < |name| ensures name[j] != '.' {
      assert tail[j - k] == name[j];
      assert LowerChar(tail[j - k]) == ext[j - k];
      LowerPreservesDot(tail[j - k]);
    }
    assert LastIndexOf(name, '.') == k;
    assert Suffix(name) == tail;
  }

  /** Examples: upper-case extensions match. */
  lemma AcceptedExamples()
    ensures HasVideoSuffix("movie.MP4") && HasVideoSuffix("clip.mkv")
  {
    assert "movie.MP4"[5..] == ".MP4" && Lower(".MP4") == ".mp4";
    EndsWithSuffix("movie.MP4", ".mp4");
    assert "clip.mkv"[4..] == ".mkv" && Lower(".mkv") == ".mkv";
    EndsWithSuffix("clip.mkv", ".mkv");
  }

  /** Other extensions, no extension and a bare ".mp4" (a hidden file whose
      suffix is empty) are refused. */
  lemma RefusedExamples()
    ensures !HasVideoSuffix("doc.txt") && !HasVideoSuffix("noext") && !HasVideoSuffix(".mp4")
  {
  }

  /** `'..' in s`. */
  function HasDotDot(s: string): (r: bool)
    ensures r <==> exists i :: 0 <= i < |s| - 1 && s[i] == '.' && s[i + 1] == '.'
  {
    if |s| < 2 then false
    else if s[0] == '.' && s[1] == '.' then true
    else HasDotDot(s[1..])
  }

  /** `resolved.relative_to(base)` succeeds: `base` is the path itself or
      one of its ancestors. */
  predicate Within(path: Resolved, base: Resolved)
  {
    base <= path
  }

  /** `VideoScanner._validate_path(s, base)`. Resolution runs first and a
      failure rejects; then any ".." in the original text rejects; then,
      when a base is given, the resolved path must lie within the resolved
      base. An accepted path is returned as the ORIGINAL, unresolved text. */
  function ValidatePath(s: string, base: Option<string>, resolve: Resolver): (r: Option<string>)
    ensures r.Some? ==> r.value == s
    ensures HasDotDot(s) ==> r == None
    ensures r.Some? <==>
      && resolve(s).Some?
      && !HasDotDot(s)
      && (base.Some? ==> resolve(base.value).Some? && Within(resolve(s).value, resolve(base.value).value))
  {
    match resolve(s)
    case None => None
    case Some(resolved) =>
      if HasDotDot(s) then None
      else match base
        case None => Some(s)
        case Some(b) =>
          match resolve(b)
          case None => None
          case Some(resolvedBase) =>
            if Within(resolved, resolvedBase) then Some(s) else None
  }

  /** A traversal string is refused whatever the file system says, both as
      the anchor folder and as an entry under any base. */
  lemma TraversalRejected(base: Option<string>, resolve: Resolver)
    ensures ValidatePath("../../etc/passwd", base, resolve) == None
  {
  }
}
