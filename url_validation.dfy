/**
 * The submission URL check: a URL is accepted when it starts with an
 * optional `http://` or `https://`, an optional `www.`, one of the four
 * YouTube path shapes, and at least one video-id character.  Anything may
 * follow, because the patterns are matched at the start only.
 */
module UrlValidation {
  import opened Text

  /** `[\w-]`: the characters a video id may contain. */
  predicate IsIdChar(c: char) { IsWordChar(c) || c == '-' }

  /** The four path shapes, in the order they are tried. */
  const Hosts: seq<string> := ["youtube.com/watch?v=", "youtube.com/shorts/", "youtu.be/", "youtube.com/embed/"]

  /** What `(https?://)?` can match. */
  const Schemes: seq<string> := ["", "http://", "https://"]

  /** What `(www\.)?` can match. */
  const WwwPrefixes: seq<string> := ["", "www."]

  /** The length of the scheme that `(https?://)?` takes from the start of `s`. */
  function SchemeLength(s: string): nat
  {
    if IsPrefix("https://", s) then 8 else if IsPrefix("http://", s) then 7 else 0
  }

  /** The length of the prefix that `(www\.)?` takes from the start of `s`. */
  function WwwLength(s: string): nat
  {
    if IsPrefix("www.", s) then 4 else 0
  }

  /** `re.match(r'(https?://)?(www\.)?' + host + r'[\w-]+', url)` succeeds. */
  predicate MatchesPattern(host: string, url: string)
  {
    var a := SchemeLength(url);
    var b := a + WwwLength(url[a..]);
    b + |host| < |url| && url[b..b + |host|] == host && IsIdChar(url[b + |host|])
  }

  /** The loop over the patterns: true at the first pattern that matches. */
  predicate MatchesAny(hosts: seq<string>, url: string)
    decreases |hosts|
  {
    |hosts| > 0 && (MatchesPattern(hosts[0], url) || MatchesAny(hosts[1..], url))
  }

  predicate IsValidYoutubeUrl(url: string)
  {
    MatchesAny(Hosts, url)
  }

  /** `url` starts with `p` and an id character comes right after it. */
  predicate IdFollows(p: string, url: string)
  {
    |p| < |url| && url[..|p|] == p && IsIdChar(url[|p|])
  }

  /** The accepted language written out: one of the 3 x 2 x 4 prefixes, then an id character. */
  ghost predicate MatchesReference(url: string)
  {
    exists i, j, h | 0 <= i < |Schemes| && 0 <= j < |WwwPrefixes| && 0 <= h < |Hosts| ::
      IdFollows(Schemes[i] + WwwPrefixes[j] + Hosts[h], url)
  }

  /** The validator accepts exactly the strings of the reference language. */
  lemma ValidIffReference(url: string)
    ensures IsValidYoutubeUrl(url) <==> MatchesReference(url)
  {
    MatchesAnyIff(Hosts, url);
    if IsValidYoutubeUrl(url) {
      var h :| 0 <= h < |Hosts| && MatchesPattern(Hosts[h], url);
      var i, j := PatternGivesPrefix(h, url);
    } else {
      forall i, j, h | 0 <= i < |Schemes| && 0 <= j < |WwwPrefixes| && 0 <= h < |Hosts|
        ensures !IdFollows(Schemes[i] + WwwPrefixes[j] + Hosts[h], url)
      {
        if IdFollows(Schemes[i] + WwwPrefixes[j] + Hosts[h], url) {
          PrefixGivesPattern(i, j, h, url);
        }
      }
    }
  }

  lemma {:induction false} MatchesAnyIff(hosts: seq<string>, url: string)
    ensures MatchesAny(hosts, url) <==> exists h | 0 <= h < |hosts| :: MatchesPattern(hosts[h], url)
    decreases |hosts|
  {
    if |hosts| > 0 {
      MatchesAnyIff(hosts[1..], url);
      if MatchesAny(hosts[1..], url) {
        var h :| 0 <= h < |hosts[1..]| && MatchesPattern(hosts[1..][h], url);
        assert MatchesPattern(hosts[h + 1], url);
      }
      forall h | 1 <= h < |hosts| && MatchesPattern(hosts[h], url) ensures MatchesAny(hosts[1..], url) {
        assert hosts[1..][h - 1] == hosts[h];
      }
    }
  }

  /** A successful greedy match names one of the reference prefixes. */
  lemma PatternGivesPrefix(h: nat, url: string) returns (i: nat, j: nat)
    requires h < |Hosts| && MatchesPattern(Hosts[h], url)
    ensures i < |Schemes| && j < |WwwPrefixes| && IdFollows(Schemes[i] + WwwPrefixes[j] + Hosts[h], url)
  {
    var host := Hosts[h];
    var a := SchemeLength(url);
    var b := a + WwwLength(url[a..]);
    i := if a == 8 then 2 else if a == 7 then 1 else 0;
    j := if b == a then 0 else 1;
    assert url[..a] == Schemes[i];
    assert url[a..b] == WwwPrefixes[j] by {
      if j == 1 { assert url[a..][..4] == url[a..b]; }
    }
    JoinParts(Schemes[i], WwwPrefixes[j], host, url, a, b);
  }

  /** Three consecutive slices of `url` that spell x, y, z make x + y + z a prefix. */
  lemma JoinParts(x: string, y: string, z: string, url: string, a: nat, b: nat)
    requires a <= b <= |url| && b + |z| < |url|
    requires url[..a] == x && url[a..b] == y && url[b..b + |z|] == z && IsIdChar(url[b + |z|])
    ensures IdFollows(x + y + z, url)
  {
    assert url[..b + |z|] == url[..a] + url[a..b] + url[b..b + |z|];
  }

  /** The slices of `url` under a prefix x + y + z, and the characters at their borders. */
  lemma SplitParts(x: string, y: string, z: string, url: string)
    requires IdFollows(x + y + z, url)
    ensures |x| + |y| + |z| < |url|
    ensures url[..|x|] == x && url[|x|..][..|y|] == y
    ensures url[|x| + |y|..|x| + |y| + |z|] == z
    ensures IsIdChar(url[|x| + |y| + |z|])
    ensures |y| > 0 ==> url[|x|] == y[0]
    ensures |z| > 0 ==> url[|x| + |y|] == z[0]
  {
    var p := x + y + z;
    assert url[..|p|] == p;
    assert url[..|x|] == p[..|x|];
    assert url[|x|..][..|y|] == p[|x|..|x| + |y|];
    assert url[|x| + |y|..|x| + |y| + |z|] == p[|x| + |y|..];
  }

  /** Every host path starts with 'y'. */
  lemma HostStartsWithY(h: nat)
    requires h < |Hosts|
    ensures |Hosts[h]| > 0 && Hosts[h][0] == 'y'
  {
  }

  /** Every reference prefix is found by the greedy match. */
  lemma PrefixGivesPattern(i: nat, j: nat, h: nat, url: string)
    requires i < |Schemes| && j < |WwwPrefixes| && h < |Hosts|
    requires IdFollows(Schemes[i] + WwwPrefixes[j] + Hosts[h], url)
    ensures MatchesPattern(Hosts[h], url)
  {
    var scheme, www, host := Schemes[i], WwwPrefixes[j], Hosts[h];
    SplitParts(scheme, www, host, url);
    HostStartsWithY(h);
    var a := |scheme|;
    assert j == 1 ==> www[0] == 'w';
    assert url[a] == 'w' || url[a] == 'y';
    SchemeLengthOfPrefix(i, url);
    assert url[a..][|www|] == url[a + |www|];
    WwwLengthOfPrefix(j, url[a..]);
  }

  /** A scheme followed by the first letter of `www.` or of a host is measured exactly. */
  lemma SchemeLengthOfPrefix(i: nat, url: string)
    requires i < |Schemes| && |Schemes[i]| < |url| && url[..|Schemes[i]|] == Schemes[i]
    requires url[|Schemes[i]|] == 'w' || url[|Schemes[i]|] == 'y'
    ensures SchemeLength(url) == |Schemes[i]|
  {
    if i == 0 {
      Mismatch("https://", url, 0);
      Mismatch("http://", url, 0);
    } else if i == 1 {
      assert url[4] == url[..7][4] == ':';
      Mismatch("https://", url, 4);
    }
  }

  /** `www.` followed by the first letter of a host, or a host alone, is measured exactly. */
  lemma WwwLengthOfPrefix(j: nat, rest: string)
    requires j < |WwwPrefixes| && |WwwPrefixes[j]| < |rest| && rest[..|WwwPrefixes[j]|] == WwwPrefixes[j]
    requires rest[|WwwPrefixes[j]|] == 'y'
    ensures WwwLength(rest) == |WwwPrefixes[j]|
  {
    if j == 0 {
      Mismatch("www.", rest, 0);
    }
  }

  /** A string that differs from `p` at position `k` does not start with `p`. */
  lemma Mismatch(p: string, s: string, k: nat)
    requires k < |p| && k < |s| && s[k] != p[k]
    ensures !IsPrefix(p, s)
  {
    if |p| <= |s| {
      assert s[..|p|][k] == s[k];
    }
  }

  /** The scenario URL `https://www.youtube.com/watch?v=abc123` is accepted. */
  lemma AcceptsWatchUrl()
    ensures IsValidYoutubeUrl("https://www.youtube.com/watch?v=abc123")
  {
    var p := "https://www.youtube.com/watch?v=";
    var good := "https://www.youtube.com/watch?v=abc123";
    assert Schemes[2] + WwwPrefixes[1] + Hosts[0] == p;
    assert good == p + "abc123";
    assert good[..|p|] == p && good[|p|] == 'a';
    PrefixGivesPattern(2, 1, 0, good);
  }

  /** The scenario string `not-a-url` is rejected. */
  lemma RejectsNotAUrl()
    ensures !IsValidYoutubeUrl("not-a-url")
  {
    var bad := "not-a-url";
    Mismatch("https://", bad, 0);
    Mismatch("http://", bad, 0);
    Mismatch("www.", bad, 0);
    assert SchemeLength(bad) == 0 && WwwLength(bad[0..]) == 0;
    forall h | 0 <= h < |Hosts| ensures !MatchesPattern(Hosts[h], bad) {
      assert |Hosts[h]| >= |bad|;
    }
    MatchesAnyIff(Hosts, bad);
  }
}
