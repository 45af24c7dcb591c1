/**
 * The attachment name of the video endpoint: the title with every
 * character other than a word character, whitespace or '-' removed, then
 * stripped, then every run of '-' and whitespace replaced by one '-'; then
 * the extension `os.path.splitext` finds on the stored path.
 */
module Filename {
  import opened Text

  predicate IsAllowed(c: char) { IsWordChar(c) || IsSpace(c) || c == '-' }

  /** The characters the second substitution folds together. */
  predicate IsSeparator(c: char) { c == '-' || IsSpace(c) }

  /** The word characters of `s`, in order. */
  function WordChars(s: string): string
  {
    if s == [] then [] else (if IsWordChar(s[0]) then [s[0]] else []) + WordChars(s[1..])
  }

  lemma {:induction false} WordCharsAppend(a: string, b: string)
    ensures WordChars(a + b) == WordChars(a) + WordChars(b)
  {
    if a != [] {
      assert (a + b)[0] == a[0] && (a + b)[1..] == a[1..] + b;
      WordCharsAppend(a[1..], b);
    } else {
      assert a + b == b;
    }
  }

  lemma {:induction false} WordCharsOfSpaces(s: string)
    requires AllSpace(s)
    ensures WordChars(s) == []
  {
    if s != [] {
      WordCharsOfSpaces(s[1..]);
    }
  }

  /** `re.sub(r'[^\w\s-]', '', title)`: the allowed characters of `s`, in order. */
  function RemoveDisallowed(s: string): (r: string)
    ensures |r| <= |s|
    ensures forall k :: 0 <= k < |r| ==> IsAllowed(r[k])
    ensures WordChars(r) == WordChars(s)
    ensures forall k :: 0 <= k < |s| && IsAllowed(s[k]) ==> s[k] in r
  {
    if s == [] then []
    else
      var rest := RemoveDisallowed(s[1..]);
      assert forall k :: 1 <= k < |s| ==> s[k] == s[1..][k - 1];
      if IsAllowed(s[0]) then [s[0]] + rest else rest
  }

  /** The substitution works character by character: it distributes over concatenation. */
  lemma {:induction false} RemoveDisallowedAppend(a: string, b: string)
    ensures RemoveDisallowed(a + b) == RemoveDisallowed(a) + RemoveDisallowed(b)
  {
    if a == [] {
      assert a + b == b;
    } else {
      assert (a + b)[0] == a[0] && (a + b)[1..] == a[1..] + b;
      RemoveDisallowedAppend(a[1..], b);
    }
  }

  /** A single character is kept exactly when it is allowed. */
  lemma RemoveDisallowedSingle(c: char)
    ensures RemoveDisallowed([c]) == if IsAllowed(c) then [c] else []
  {
    assert [c][1..] == [];
  }

  /** A string of allowed characters passes unchanged. */
  lemma {:induction false} RemoveDisallowedKeepsAllowed(s: string)
    requires forall k :: 0 <= k < |s| ==> IsAllowed(s[k])
    ensures RemoveDisallowed(s) == s
  {
    if s != [] {
      assert forall k :: 0 <= k < |s[1..]| ==> s[1..][k] == s[k + 1];
      RemoveDisallowedKeepsAllowed(s[1..]);
      assert s == [s[0]] + s[1..];
    }
  }

  /**
   * `re.sub(r'[-\s]+', '-', s)`: each maximal run of separators becomes one
   * '-'.  A separator followed by another is dropped; the last one of a run
   * is written as '-'.
   */
  function CollapseSeparators(s: string): (r: string)
    ensures s == [] <==> r == []
    ensures s != [] ==> (r[0] == '-' <==> IsSeparator(s[0]))
    ensures forall k :: 0 <= k < |r| - 1 ==> !(r[k] == '-' && r[k + 1] == '-')
  {
    if s == [] then []
    else if IsSeparator(s[0]) then
      if |s| > 1 && IsSeparator(s[1]) then CollapseSeparators(s[1..]) else "-" + CollapseSeparators(s[1..])
    else [s[0]] + CollapseSeparators(s[1..])
  }

  /** Every character of `r` is a '-' or a character of `s` that is not a separator. */
  predicate DashOrKept(r: string, s: string)
  {
    forall k :: 0 <= k < |r| ==> r[k] == '-' || (!IsSeparator(r[k]) && r[k] in s)
  }

  /** Apart from the '-' it writes, the collapse only keeps characters of its input that are not separators. */
  lemma {:induction false} CollapseKeepsChars(s: string)
    ensures DashOrKept(CollapseSeparators(s), s)
  {
    if s != [] {
      var t := s[1..];
      var rest := CollapseSeparators(t);
      CollapseKeepsChars(t);
      assert forall c :: c in t ==> c in s;
      var r := CollapseSeparators(s);
      if !IsSeparator(s[0]) {
        assert r == [s[0]] + rest;
        assert r[0] == s[0] && s[0] in s;
        assert forall k :: 1 <= k < |r| ==> r[k] == rest[k - 1];
      } else if !(|s| > 1 && IsSeparator(s[1])) {
        assert r == "-" + rest;
        assert forall k :: 1 <= k < |r| ==> r[k] == rest[k - 1];
      }
    }
  }

  /** A string without separators passes the collapse unchanged. */
  lemma {:induction false} CollapseWithoutSeparators(s: string)
    requires forall k :: 0 <= k < |s| ==> !IsSeparator(s[k])
    ensures CollapseSeparators(s) == s
  {
    if s != [] {
      assert forall k :: 0 <= k < |s[1..]| ==> s[1..][k] == s[k + 1];
      CollapseWithoutSeparators(s[1..]);
      assert s == [s[0]] + s[1..];
    }
  }

  /** A run of separators followed by a non-separator (or nothing) becomes one '-'. */
  lemma {:induction false} CollapseRun(run: string, y: string)
    requires |run| > 0 && forall k :: 0 <= k < |run| ==> IsSeparator(run[k])
    requires y == [] || !IsSeparator(y[0])
    ensures CollapseSeparators(run + y) == "-" + CollapseSeparators(y)
  {
    var s := run + y;
    assert s[0] == run[0];
    if |run| == 1 {
      assert s[1..] == y;
      assert |s| > 1 ==> s[1] == y[0];
    } else {
      assert s[1] == run[1];
      assert s[1..] == run[1..] + y;
      CollapseRun(run[1..], y);
    }
  }

  /**
   * Between a part that ends in a non-separator and one that starts with a
   * non-separator, a maximal run of separators becomes exactly one '-', and
   * the parts on either side collapse on their own.
   */
  lemma {:induction false} CollapseSplitsAtRun(x: string, run: string, y: string)
    requires |run| > 0 && forall k :: 0 <= k < |run| ==> IsSeparator(run[k])
    requires x == [] || !IsSeparator(x[|x| - 1])
    requires y == [] || !IsSeparator(y[0])
    ensures CollapseSeparators(x + run + y) == CollapseSeparators(x) + "-" + CollapseSeparators(y)
  {
    if x == [] {
      assert x + run + y == run + y;
      CollapseRun(run, y);
    } else {
      var s := x + run + y;
      var t := x[1..];
      assert s[0] == x[0] && s[1..] == t + run + y;
      var rest, ct, cy := CollapseSeparators(t + run + y), CollapseSeparators(t), CollapseSeparators(y);
      assert rest == ct + "-" + cy by {
        CollapseSplitsAtRun(t, run, y);
      }
      if !IsSeparator(x[0]) {
        assert CollapseSeparators(s) == [x[0]] + rest;
        assert CollapseSeparators(x) == [x[0]] + ct;
        Reassociate([x[0]], ct, "-", cy);
      } else {
        assert |x| > 1 && s[1] == x[1];
        if !IsSeparator(x[1]) {
          assert CollapseSeparators(s) == "-" + rest;
          assert CollapseSeparators(x) == "-" + ct;
          Reassociate("-", ct, "-", cy);
        }
      }
    }
  }

  lemma Reassociate(a: string, b: string, c: string, d: string)
    ensures a + (b + c + d) == a + b + c + d
  {
  }

  /** The collapse keeps the word characters, in order. */
  lemma {:induction false} CollapseKeepsWordChars(s: string)
    ensures WordChars(CollapseSeparators(s)) == WordChars(s)
  {
    if s != [] {
      var t := s[1..];
      var rest := CollapseSeparators(t);
      CollapseKeepsWordChars(t);
      assert WordChars(s) == (if IsWordChar(s[0]) then [s[0]] else []) + WordChars(t);
      if IsSeparator(s[0]) {
        assert !IsWordChar(s[0]);
        if !(|s| > 1 && IsSeparator(s[1])) {
          WordCharsAppend("-", rest);
          assert WordChars("-") == [] by { assert "-"[1..] == []; }
        }
      } else {
        WordCharsAppend([s[0]], rest);
        assert WordChars([s[0]]) == (if IsWordChar(s[0]) then [s[0]] else []) by {
          assert [s[0]][1..] == [];
        }
      }
    }
  }

  /** The sanitised title: the name part of the attachment. */
  function SafeTitle(title: string): (r: string)
    ensures forall k :: 0 <= k < |r| ==> IsWordChar(r[k]) || r[k] == '-'
    ensures forall k :: 0 <= k < |r| - 1 ==> !(r[k] == '-' && r[k + 1] == '-')
    ensures WordChars(r) == WordChars(title)
  {
    var kept := RemoveDisallowed(title);
    var stripped := Strip(kept);
    StripKeepsWordChars(kept);
    StripKeepsChars(kept);
    CollapseKeepsChars(stripped);
    CollapseKeepsWordChars(stripped);
    CollapseSeparators(stripped)
  }

  /** On allowed characters with no whitespace at either end, only the collapse has an effect. */
  lemma SafeTitleOfAllowed(s: string)
    requires forall k :: 0 <= k < |s| ==> IsAllowed(s[k])
    requires s == [] || (!IsSpace(s[0]) && !IsSpace(s[|s| - 1]))
    ensures SafeTitle(s) == CollapseSeparators(s)
  {
    RemoveDisallowedKeepsAllowed(s);
    StripUnchanged(s);
  }

  /** A title made of word characters only is its own sanitised name. */
  lemma SafeTitleOfWord(w: string)
    requires forall k :: 0 <= k < |w| ==> IsWordChar(w[k])
    ensures SafeTitle(w) == w
  {
    SafeTitleOfAllowed(w);
    CollapseWithoutSeparators(w);
  }

  /**
   * Two words separated by whitespace and hyphens are joined by exactly one
   * '-': "Hello World" becomes "Hello-World".
   */
  lemma SafeTitleJoinsWords(x: string, run: string, y: string)
    requires |x| > 0 && forall k :: 0 <= k < |x| ==> IsWordChar(x[k])
    requires |run| > 0 && forall k :: 0 <= k < |run| ==> IsSeparator(run[k])
    requires |y| > 0 && forall k :: 0 <= k < |y| ==> IsWordChar(y[k])
    ensures SafeTitle(x + run + y) == x + "-" + y
  {
    SafeTitleOfJoin(x, run, y);
    CollapseOfJoin(x, run, y);
  }

  /** Two words around a run of separators are already allowed and unstripped. */
  lemma SafeTitleOfJoin(x: string, run: string, y: string)
    requires |x| > 0 && forall k :: 0 <= k < |x| ==> IsWordChar(x[k])
    requires |run| > 0 && forall k :: 0 <= k < |run| ==> IsSeparator(run[k])
    requires |y| > 0 && forall k :: 0 <= k < |y| ==> IsWordChar(y[k])
    ensures SafeTitle(x + run + y) == CollapseSeparators(x + run + y)
  {
    var s := x + run + y;
    AllowedJoin(x, run, y);
    assert s[0] == x[0] && s[|s| - 1] == y[|y| - 1];
    SafeTitleOfAllowed(s);
  }

  /** The collapse joins two words around a run of separators with one '-'. */
  lemma CollapseOfJoin(x: string, run: string, y: string)
    requires |x| > 0 && forall k :: 0 <= k < |x| ==> IsWordChar(x[k])
    requires |run| > 0 && forall k :: 0 <= k < |run| ==> IsSeparator(run[k])
    requires |y| > 0 && forall k :: 0 <= k < |y| ==> IsWordChar(y[k])
    ensures CollapseSeparators(x + run + y) == x + "-" + y
  {
    assert !IsSeparator(x[|x| - 1]) && !IsSeparator(y[0]);
    CollapseSplitsAtRun(x, run, y);
    CollapseWithoutSeparators(x);
    CollapseWithoutSeparators(y);
  }

  /** Words around a run of separators are allowed characters throughout. */
  lemma AllowedJoin(x: string, run: string, y: string)
    requires forall k :: 0 <= k < |x| ==> IsWordChar(x[k])
    requires forall k :: 0 <= k < |run| ==> IsSeparator(run[k])
    requires forall k :: 0 <= k < |y| ==> IsWordChar(y[k])
    ensures forall k :: 0 <= k < |x + run + y| ==> IsAllowed((x + run + y)[k])
  {
    var s := x + run + y;
    forall k | 0 <= k < |s| ensures IsAllowed(s[k]) {
      if k < |x| { assert s[k] == x[k]; }
      else if k < |x| + |run| { assert s[k] == run[k - |x|]; }
      else { assert s[k] == y[k - |x| - |run|]; }
    }
  }

  /** Stripping removes only whitespace, so it keeps every word character. */
  lemma StripKeepsWordChars(s: string)
    ensures WordChars(Strip(s)) == WordChars(s)
  {
    var i, j := StripIsMiddle(s);
    WordCharsOfMiddle(s, i, j, Strip(s));
  }

  /** Cutting whitespace off both ends of `s` keeps its word characters. */
  lemma WordCharsOfMiddle(s: string, i: nat, j: nat, mid: string)
    requires i <= j <= |s| && AllSpace(s[..i]) && AllSpace(s[j..]) && mid == s[i..j]
    ensures WordChars(mid) == WordChars(s)
  {
    var pre, post := s[..i], s[j..];
    assert s == (pre + mid) + post;
    WordCharsAppend(pre + mid, post);
    WordCharsAppend(pre, mid);
    WordCharsOfSpaces(pre);
    WordCharsOfSpaces(post);
  }

  /** Every character of the stripped string comes from the input. */
  lemma StripKeepsChars(s: string)
    ensures forall k :: 0 <= k < |Strip(s)| ==> Strip(s)[k] in s
  {
    var r := Strip(s);
    var i := LeadingSpaces(s);
    assert forall k :: 0 <= k < |r| ==> r[k] == s[i + k];
  }

  /** The last index of `c` in `s`, or -1 (`str.rfind`). */
  function LastIndexOf(s: string, c: char): (k: int)
    ensures -1 <= k < |s|
    ensures k >= 0 ==> s[k] == c
    ensures forall j :: k < j < |s| ==> s[j] != c
  {
    if s == [] then -1
    else if s[|s| - 1] == c then |s| - 1
    else LastIndexOf(s[..|s| - 1], c)
  }

  /**
   * The second half of `os.path.splitext` on a POSIX path: from the last
   * '.' of the final component, provided something other than dots comes
   * before it in that component; otherwise empty.
   */
  function Extension(path: string): (ext: string)
    ensures ext == [] || (|ext| <= |path| && ext == path[|path| - |ext|..] && ext[0] == '.')
    ensures forall k :: 0 <= k < |ext| ==> ext[k] != '/'
    ensures forall k :: 1 <= k < |ext| ==> ext[k] != '.'
    ensures ext != [] <==> (LastIndexOf(path, '.') > LastIndexOf(path, '/')
                            && exists k :: LastIndexOf(path, '/') < k < LastIndexOf(path, '.') && path[k] != '.')
  {
    var slash := LastIndexOf(path, '/');
    var dot := LastIndexOf(path, '.');
    if dot > slash && exists k :: slash < k < dot && path[k] != '.' then
      path[dot..]
    else
      []
  }

  /** The download name: the sanitised title followed by the file's extension. */
  function DownloadName(title: string, path: string): string
  {
    SafeTitle(title) + Extension(path)
  }

  /** The default title "video" is sanitised to itself. */
  lemma SafeTitleOfVideo()
    ensures SafeTitle("video") == "video"
  {
    var w := "video";
    assert forall k :: 0 <= k < |w| ==> IsWordChar(w[k]);
    SafeTitleOfWord(w);
  }

  /** Only the last suffix counts: `splitext("a/b.tar.gz")` gives ".gz". */
  lemma ExtensionOfDoubleSuffix()
    ensures Extension("a/b.tar.gz") == ".gz"
  {
    var p := "a/b.tar.gz";
    assert p[1] == '/' && p[7] == '.' && p[2] != '.';
    assert LastIndexOf(p, '/') == 1;
    assert LastIndexOf(p, '.') == 7;
  }

  /** A hidden file's leading dot is not an extension: `splitext("a/.x")` gives "". */
  lemma HiddenFileHasNoExtension()
    ensures Extension("a/.x") == ""
  {
    var p := "a/.x";
    assert p[1] == '/' && p[2] == '.';
    assert LastIndexOf(p, '/') == 1;
    assert LastIndexOf(p, '.') == 2;
  }

  /** A dot in a directory name is not an extension: `splitext("a.b/c")` gives "". */
  lemma DotInDirectoryIsNoExtension()
    ensures Extension("a.b/c") == ""
  {
    var p := "a.b/c";
    assert p[3] == '/' && p[1] == '.';
    assert LastIndexOf(p, '/') == 3;
    assert LastIndexOf(p, '.') == 1;
  }

  /** A path the download step produces has the extension it was searched with. */
  lemma ExtensionOfDownloadedFile(folder: string, id: string, ext: string)
    requires id != [] && forall k :: 0 <= k < |id| ==> id[k] != '.' && id[k] != '/'
    requires forall k :: 0 <= k < |ext| ==> ext[k] != '.' && ext[k] != '/'
    ensures Extension(folder + "/" + id + "." + ext) == "." + ext
  {
    var path := folder + "/" + id + "." + ext;
    var slash := |folder|;
    var dot := |folder| + 1 + |id|;
    assert path[slash] == '/' && path[dot] == '.';
    assert forall j :: dot < j < |path| ==> path[j] == ext[j - dot - 1];
    assert forall j :: slash < j < dot ==> path[j] == id[j - slash - 1];
    assert LastIndexOf(path, '.') == dot;
    assert LastIndexOf(path, '/') == slash;
    assert path[slash + 1] == id[0];
    assert path[dot..] == "." + ext;
  }
}
