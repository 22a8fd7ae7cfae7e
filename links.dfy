/**
  Link classification and username extraction (`isUsernameLink` and
  `extractUsername` in content.js). The regular expressions are written out as
  predicates over the characters of the `href`: an anchored pattern is a fixed
  prefix, a name of one or more non-`/` characters, a fixed suffix and an optional
  trailing `/`; the extraction pattern is tried at each position from the left, as
  a regular-expression search does.
 */
module Links {
  import opened Wrappers

  /** The closest anchor of a click: its tag name and its `href` attribute, if it has one. */
  datatype Element = Element(tagName: string, href: Option<string>)

  /** `getAttribute('href') || ''`: a missing attribute reads as the empty string. */
  function HrefOrEmpty(e: Element): (r: string)
    ensures r == [] <==> e.href.None? || e.href.value == []
    ensures e.href.Some? ==> r == e.href.value
  {
    match e.href
    case Some(h) => h
    case None => ""
  }

  /** A `<name>` in the patterns, the class `[^\/]+`: one or more characters, none of them `/`. */
  predicate IsName(n: string) {
    |n| > 0 && '/' !in n
  }

  /** The six anchored username patterns, in the order content.js lists them. */
  datatype Pattern =
    | UserProfile           // ^\/user\/<name>\/?$
    | ShortProfile          // ^\/u\/<name>\/?$
    | UserPosts             // ^\/user\/<name>\/posts\/?$
    | UserComments          // ^\/user\/<name>\/comments\/?$
    | AbsoluteUserProfile   // ^https:\/\/www\.reddit\.com\/user\/<name>\/?$
    | AbsoluteShortProfile  // ^https:\/\/www\.reddit\.com\/u\/<name>\/?$

  const USERNAME_PATTERNS: seq<Pattern> :=
    [UserProfile, ShortProfile, UserPosts, UserComments, AbsoluteUserProfile, AbsoluteShortProfile]

  const REDDIT_ORIGIN: string := "https://www.reddit.com"

  function Prefix(p: Pattern): string {
    match p
    case UserProfile | UserPosts | UserComments => "/user/"
    case ShortProfile => "/u/"
    case AbsoluteUserProfile => REDDIT_ORIGIN + "/user/"
    case AbsoluteShortProfile => REDDIT_ORIGIN + "/u/"
  }

  function Suffix(p: Pattern): string {
    match p
    case UserPosts => "/posts"
    case UserComments => "/comments"
    case _ => ""
  }

  /** The href that pattern `p` describes for `name`, with or without the trailing `/`. */
  function Shape(p: Pattern, name: string, slash: bool): string {
    Prefix(p) + name + Suffix(p) + (if slash then "/" else "")
  }

  /** Drops one trailing `/`, the optional `\/?` at the end of every pattern. */
  function WithoutTrailingSlash(s: string): string {
    if |s| > 0 && s[|s| - 1] == '/' then s[..|s| - 1] else s
  }

  /** `pattern.test(href)` for the anchored pattern `p`. */
  predicate Matches(p: Pattern, href: string)
    ensures Matches(p, href) ==> href != []
  {
    var body := WithoutTrailingSlash(href);
    var pre, suf := Prefix(p), Suffix(p);
    && |pre| + |suf| <= |body|
    && pre <= body
    && body[|body| - |suf|..] == suf
    && IsName(body[|pre|..|body| - |suf|])
  }

  /** The `<name>` a matching href carries. */
  function MatchedName(p: Pattern, href: string): string
    requires Matches(p, href)
  {
    var body := WithoutTrailingSlash(href);
    body[|Prefix(p)|..|body| - |Suffix(p)|]
  }

  /** `usernamePatterns.some(pattern => pattern.test(href))` */
  predicate IsUsernameHref(href: string)
    ensures IsUsernameHref(href) ==> href != []
  {
    exists i :: 0 <= i < |USERNAME_PATTERNS| && Matches(USERNAME_PATTERNS[i], href)
  }

  /** `isUsernameLink(element)`: an `A` element whose href matches one of the patterns. */
  predicate IsUsernameLink(e: Element)
    ensures IsUsernameLink(e) ==> e.tagName == "A" && e.href.Some? && e.href.value != ""
  {
    e.tagName == "A" && IsUsernameHref(HrefOrEmpty(e))
  }

  /** Every shape a pattern describes matches it, and the name read back is the one put in. */
  lemma MatchesShape(p: Pattern, name: string, slash: bool)
    requires IsName(name)
    ensures Matches(p, Shape(p, name, slash))
    ensures MatchedName(p, Shape(p, name, slash)) == name
  {
    var pre, suf := Prefix(p), Suffix(p);
    var core := pre + name + suf;
    assert core[|core| - 1] != '/' by {
      if suf == [] {
        assert core[|core| - 1] == name[|name| - 1];
      }
    }
    assert WithoutTrailingSlash(Shape(p, name, slash)) == core by {
      if slash {
        assert Shape(p, name, slash) == core + "/";
      } else {
        assert Shape(p, name, slash) == core;
      }
    }
    assert core[|core| - |suf|..] == suf;
    assert core[|pre|..|core| - |suf|] == name;
    assert pre <= core;
  }

  /** Without its trailing `/`, a matching href is its pattern's prefix, the name and the suffix. */
  lemma MatchBody(p: Pattern, href: string)
    requires Matches(p, href)
    ensures WithoutTrailingSlash(href) == Prefix(p) + MatchedName(p, href) + Suffix(p)
  {
    var body, pre, suf := WithoutTrailingSlash(href), Prefix(p), Suffix(p);
    assert body == body[..|pre|] + body[|pre|..|body| - |suf|] + body[|body| - |suf|..];
  }

  /** A matching href is exactly one of the shapes of its pattern. */
  lemma ShapeOfMatch(p: Pattern, href: string)
    requires Matches(p, href)
    ensures IsName(MatchedName(p, href))
    ensures href == Shape(p, MatchedName(p, href), href[|href| - 1] == '/')
  {
    MatchBody(p, href);
    var body := WithoutTrailingSlash(href);
    if href[|href| - 1] == '/' {
      assert href == body + "/";
    } else {
      assert href == body;
    }
  }

  /** `pattern.test(href)` holds exactly for the shapes the pattern describes. */
  lemma MatchesIff(p: Pattern, href: string)
    ensures Matches(p, href) <==> exists name, slash :: IsName(name) && href == Shape(p, name, slash)
  {
    if Matches(p, href) {
      ShapeOfMatch(p, href);
    }
    forall name, slash | IsName(name) && href == Shape(p, name, slash) ensures Matches(p, href) {
      MatchesShape(p, name, slash);
    }
  }

  /**
    An href is classified exactly when it is one of the six shapes: `/user/<name>`,
    `/u/<name>`, `/user/<name>/posts`, `/user/<name>/comments` and the two
    `https://www.reddit.com` forms, each with an optional trailing `/`.
   */
  lemma IsUsernameHrefIff(href: string)
    ensures IsUsernameHref(href) <==> exists p, name, slash :: IsName(name) && href == Shape(p, name, slash)
  {
    if IsUsernameHref(href) {
      var i :| 0 <= i < |USERNAME_PATTERNS| && Matches(USERNAME_PATTERNS[i], href);
      MatchesIff(USERNAME_PATTERNS[i], href);
    }
    forall p, name, slash | IsName(name) && href == Shape(p, name, slash) ensures IsUsernameHref(href) {
      MatchesShape(p, name, slash);
      var i := match p
        case UserProfile => 0 case ShortProfile => 1 case UserPosts => 2
        case UserComments => 3 case AbsoluteUserProfile => 4 case AbsoluteShortProfile => 5;
      assert USERNAME_PATTERNS[i] == p;
    }
  }

  // extractUsername: `href.match(/\/(?:u|user)\/([^\/]+)/)`, first capture group or null.

  /** The greedy `[^\/]+` run: the longest prefix of `t` without a `/`. */
  function NameRun(t: string): (r: string)
    ensures r <= t && '/' !in r
    ensures |r| == |t| || t[|r|] == '/'
  {
    if t == [] || t[0] == '/' then [] else [t[0]] + NameRun(t[1..])
  }

  /** At position `i`, `/u/` or `/user/` is followed by at least one character other than `/`. */
  ghost predicate OccursAt(href: string, i: int) {
    && 0 <= i < |href|
    && (|| ("/u/" <= href[i..] && i + 3 < |href| && href[i + 3] != '/')
        || ("/user/" <= href[i..] && i + 6 < |href| && href[i + 6] != '/'))
  }

  /** The name `name` directly follows `/u/` or `/user/` at position `i` and ends at a `/` or the end. */
  ghost predicate CapturesAt(href: string, i: int, name: string) {
    && 0 <= i <= |href|
    && IsName(name)
    && (|| ("/u/" + name <= href[i..] && Delimited(href, i + 3 + |name|))
        || ("/user/" + name <= href[i..] && Delimited(href, i + 6 + |name|)))
  }

  ghost predicate Delimited(href: string, j: int) {
    j == |href| || (0 <= j < |href| && href[j] == '/')
  }

  /** No occurrence starts in `[from, to)`. */
  ghost predicate NoOccurrence(href: string, from: int, to: int) {
    forall j :: from <= j < to ==> !OccursAt(href, j)
  }

  /** The pattern tried at position `i` alone: `u` is tried before `user`, as the alternation lists them. */
  function MatchAt(href: string, i: nat): (r: Option<string>)
    requires i <= |href|
    ensures r.Some? <==> OccursAt(href, i)
    ensures r.Some? ==> CapturesAt(href, i, r.value)
  {
    var t := href[i..];
    if "/u/" <= t && NameRun(t[3..]) != [] then Some(NameRun(t[3..]))
    else if "/user/" <= t && NameRun(t[6..]) != [] then Some(NameRun(t[6..]))
    else None
  }

  /** The search, from position `i` on. */
  function ExtractFrom(href: string, i: nat): (r: Option<string>)
    requires i <= |href|
    ensures r.Some? ==> exists k :: i <= k <= |href| && CapturesAt(href, k, r.value)
    decreases |href| - i
  {
    if i == |href| then None
    else
      match MatchAt(href, i)
      case Some(name) => Some(name)
      case None => ExtractFrom(href, i + 1)
  }

  /** `extractUsername(href)`: the first capture of the search, or null. */
  function ExtractUsername(href: string): (r: Option<string>)
    ensures r.Some? ==> r.value != [] && '/' !in r.value
  {
    ExtractFrom(href, 0)
  }

  /** Two delimited `/`-free prefixes of the same string are the same. */
  lemma NameRunUnique(t: string, name: string)
    requires name <= t && '/' !in name
    requires |name| == |t| || t[|name|] == '/'
    ensures NameRun(t) == name
  {
  }

  /** A capture at `i` is what the pattern tried at `i` returns. */
  lemma CapturesAtMatch(href: string, i: nat, name: string)
    requires CapturesAt(href, i, name)
    ensures MatchAt(href, i) == Some(name)
  {
    var t := href[i..];
    if "/u/" + name <= t && Delimited(href, i + 3 + |name|) {
      assert t[3..][..|name|] == name;
      NameRunUnique(t[3..], name);
    } else {
      assert t[2] == 's';
      assert t[6..][..|name|] == name;
      NameRunUnique(t[6..], name);
    }
  }

  /** The search from `i` returns `name` exactly when the leftmost occurrence at or after `i` captures `name`. */
  lemma {:induction false} ExtractFromSpec(href: string, i: nat, name: string)
    requires i <= |href|
    ensures ExtractFrom(href, i) == Some(name) <==>
      exists k :: i <= k <= |href| && CapturesAt(href, k, name) && NoOccurrence(href, i, k)
    decreases |href| - i
  {
    if i < |href| {
      if MatchAt(href, i).Some? {
        if ExtractFrom(href, i) == Some(name) {
          assert CapturesAt(href, i, name) && NoOccurrence(href, i, i);
        }
        forall k | i <= k <= |href| && CapturesAt(href, k, name) && NoOccurrence(href, i, k)
          ensures ExtractFrom(href, i) == Some(name)
        {
          assert k == i;
          CapturesAtMatch(href, i, name);
        }
      } else {
        assert !OccursAt(href, i);
        ExtractFromSpec(href, i + 1, name);
        if ExtractFrom(href, i) == Some(name) {
          var k :| i + 1 <= k <= |href| && CapturesAt(href, k, name) && NoOccurrence(href, i + 1, k);
          assert NoOccurrence(href, i, k);
        }
        forall k | i <= k <= |href| && CapturesAt(href, k, name) && NoOccurrence(href, i, k)
          ensures ExtractFrom(href, i) == Some(name)
        {
          if k == i {
            CapturesAtMatch(href, i, name);
          }
          assert NoOccurrence(href, i + 1, k);
        }
      }
    }
  }

  /** The search from `i` finds nothing exactly when no occurrence starts at or after `i`. */
  lemma {:induction false} ExtractFromNone(href: string, i: nat)
    requires i <= |href|
    ensures ExtractFrom(href, i).None? <==> NoOccurrence(href, i, |href|)
    decreases |href| - i
  {
    if i < |href| {
      if MatchAt(href, i).None? {
        ExtractFromNone(href, i + 1);
        assert !OccursAt(href, i);
      } else {
        assert OccursAt(href, i) && !NoOccurrence(href, i, |href|);
      }
    }
  }

  /**
    `extractUsername(href)` returns `name` exactly when the leftmost `/u/` or `/user/`
    that is followed by a non-`/` character is followed by `name` and then by a `/`
    or the end of the string; such a name is never empty and holds no `/`.
   */
  lemma ExtractUsernameSpec(href: string, name: string)
    ensures ExtractUsername(href) == Some(name) <==>
      exists k :: 0 <= k <= |href| && CapturesAt(href, k, name) && NoOccurrence(href, 0, k)
    ensures ExtractUsername(href) == Some(name) ==> IsName(name)
  {
    ExtractFromSpec(href, 0, name);
  }

  /** `extractUsername(href)` is null exactly when no `/u/` or `/user/` is followed by a non-`/` character. */
  lemma ExtractUsernameNone(href: string)
    ensures ExtractUsername(href).None? <==> forall j :: !OccursAt(href, j)
  {
    ExtractFromNone(href, 0);
  }

  /** No `/u` starts inside `https://www.reddit.com`, so the origin hides no earlier occurrence. */
  lemma NoOccurrenceInOrigin(href: string)
    requires REDDIT_ORIGIN <= href
    ensures NoOccurrence(href, 0, |REDDIT_ORIGIN|)
  {
    forall j | 0 <= j < |REDDIT_ORIGIN| ensures !OccursAt(href, j) {
      assert href[j] == REDDIT_ORIGIN[j];
      if j + 1 < |REDDIT_ORIGIN| {
        assert href[j + 1] == REDDIT_ORIGIN[j + 1];
      }
    }
  }

  /** A marker, a name, then nothing or a `/`: a capture of that name. */
  lemma CapturesAfterMarker(href: string, k: nat, marker: string, name: string, rest: string)
    requires marker == "/u/" || marker == "/user/"
    requires IsName(name) && (rest == [] || rest[0] == '/')
    requires k <= |href| && href[k..] == marker + name + rest
    ensures CapturesAt(href, k, name)
  {
  }

  /** The marker that ends a pattern's prefix. */
  function Marker(p: Pattern): string {
    if p.ShortProfile? || p.AbsoluteShortProfile? then "/u/" else "/user/"
  }

  /** Every prefix ends with its marker, and every suffix is empty or starts a new segment. */
  lemma PatternDelimiters(p: Pattern)
    ensures |Marker(p)| <= |Prefix(p)|
    ensures Prefix(p)[|Prefix(p)| - |Marker(p)|..] == Marker(p)
    ensures Suffix(p) == [] || Suffix(p)[0] == '/'
  {
  }

  /** Dropping the trailing `/` leaves a prefix that ends where a `/` or the end follows. */
  lemma TrailingSlashDelimits(s: string)
    ensures WithoutTrailingSlash(s) <= s
    ensures |WithoutTrailingSlash(s)| == |s| || s[|WithoutTrailingSlash(s)|] == '/'
  {
  }

  /** A prefix ending with a marker, a name and a delimited suffix, inside an href: a capture of that name. */
  lemma CapturesInBody(href: string, body: string, pre: string, marker: string, name: string, suf: string)
    requires marker == "/u/" || marker == "/user/"
    requires |marker| <= |pre| && pre[|pre| - |marker|..] == marker
    requires IsName(name) && (suf == [] || suf[0] == '/')
    requires body == pre + name + suf && body <= href
    requires |body| == |href| || href[|body|] == '/'
    ensures CapturesAt(href, |pre| - |marker|, name)
  {
    var k, end := |pre| - |marker|, |pre| + |name|;
    var rest := href[end..];
    assert href[k..end] == marker + name by {
      assert href[k..end] == body[k..end];
      assert body[k..|pre|] == marker;
    }
    assert href[k..] == marker + name + rest by {
      assert href[k..] == href[k..end] + rest;
    }
    assert rest == [] || rest[0] == '/' by {
      if suf != [] {
        assert rest[0] == body[end];
      } else if rest != [] {
        assert end == |body|;
      }
    }
    CapturesAfterMarker(href, k, marker, name, rest);
  }

  /** The `<name>` of a matching href is captured right after its pattern's prefix. */
  lemma MatchCaptures(p: Pattern, href: string)
    requires Matches(p, href)
    ensures |Marker(p)| <= |Prefix(p)| <= |href|
    ensures CapturesAt(href, |Prefix(p)| - |Marker(p)|, MatchedName(p, href))
  {
    var body, name := WithoutTrailingSlash(href), MatchedName(p, href);
    assert IsName(name);
    MatchBody(p, href);
    PatternDelimiters(p);
    TrailingSlashDelimits(href);
    CapturesInBody(href, body, Prefix(p), Marker(p), name, Suffix(p));
  }

  /**
    For every href a pattern accepts, the extractor finds a username, and it is the
    `<name>` segment the pattern matched.
   */
  lemma ExtractsMatchedName(p: Pattern, href: string)
    requires Matches(p, href)
    ensures ExtractUsername(href) == Some(MatchedName(p, href))
  {
    MatchCaptures(p, href);
    if p.AbsoluteUserProfile? || p.AbsoluteShortProfile? {
      assert REDDIT_ORIGIN <= Prefix(p) <= href;
      NoOccurrenceInOrigin(href);
    }
    ExtractUsernameSpec(href, MatchedName(p, href));
  }

  /** Every classified link yields a username, so the handler never suppresses a click without opening a tab. */
  lemma ClassifiedLinkExtracts(e: Element)
    requires IsUsernameLink(e)
    ensures ExtractUsername(e.href.value).Some?
    ensures IsName(ExtractUsername(e.href.value).value)
    ensures exists i ::
      && 0 <= i < |USERNAME_PATTERNS|
      && Matches(USERNAME_PATTERNS[i], e.href.value)
      && ExtractUsername(e.href.value) == Some(MatchedName(USERNAME_PATTERNS[i], e.href.value))
  {
    var href := e.href.value;
    var i :| 0 <= i < |USERNAME_PATTERNS| && Matches(USERNAME_PATTERNS[i], href);
    ExtractsMatchedName(USERNAME_PATTERNS[i], href);
    ShapeOfMatch(USERNAME_PATTERNS[i], href);
  }

  /** `/u/bob` and `/u/bob/` both classify and both yield `bob`. */
  lemma TrailingSlashExamples()
    ensures IsUsernameHref("/u/bob") && ExtractUsername("/u/bob") == Some("bob")
    ensures IsUsernameHref("/u/bob/") && ExtractUsername("/u/bob/") == Some("bob")
  {
    assert USERNAME_PATTERNS[1] == ShortProfile;
    MatchesShape(ShortProfile, "bob", false);
    assert Shape(ShortProfile, "bob", false) == "/u/bob";
    ExtractsMatchedName(ShortProfile, "/u/bob");
    MatchesShape(ShortProfile, "bob", true);
    assert Shape(ShortProfile, "bob", true) == "/u/bob/";
    ExtractsMatchedName(ShortProfile, "/u/bob/");
  }

  /** `[^\/]+` admits `?`, so a query string is accepted and stays part of the name. */
  lemma QueryInNameExample()
    ensures IsUsernameHref("/user/bob?x=1") && ExtractUsername("/user/bob?x=1") == Some("bob?x=1")
  {
    assert USERNAME_PATTERNS[0] == UserProfile;
    MatchesShape(UserProfile, "bob?x=1", false);
    assert Shape(UserProfile, "bob?x=1", false) == "/user/bob?x=1";
    ExtractsMatchedName(UserProfile, "/user/bob?x=1");
  }

  /** The absolute form yields the name that follows the origin. */
  lemma AbsoluteExample()
    ensures IsUsernameHref("https://www.reddit.com/user/alice/")
    ensures ExtractUsername("https://www.reddit.com/user/alice/") == Some("alice")
  {
    assert USERNAME_PATTERNS[4] == AbsoluteUserProfile;
    MatchesShape(AbsoluteUserProfile, "alice", true);
    assert Shape(AbsoluteUserProfile, "alice", true) == "https://www.reddit.com/user/alice/";
    ExtractsMatchedName(AbsoluteUserProfile, "https://www.reddit.com/user/alice/");
  }

  /** An href that differs from a pattern's prefix at position `j` does not match it. */
  lemma PrefixMismatch(p: Pattern, href: string, j: nat)
    requires j < |Prefix(p)| && (j >= |href| || href[j] != Prefix(p)[j])
    ensures !Matches(p, href)
  {
  }

  /** A `/` between the prefix and the last character puts a `/` inside a suffix-less pattern's name. */
  lemma SlashInName(p: Pattern, href: string, j: nat)
    requires Suffix(p) == "" && |Prefix(p)| <= j < |href| - 1 && href[j] == '/'
    ensures !Matches(p, href)
  {
  }

  /** An href that ends in neither `/` nor the pattern's suffix does not match a pattern with a suffix. */
  lemma SuffixMismatch(p: Pattern, href: string)
    requires Suffix(p) != "" && |href| > 0 && href[|href| - 1] != '/' && href[|href| - 1] != 's'
    ensures !Matches(p, href)
  {
  }

  /** An href no pattern matches is not a username link. */
  lemma NoPatternMatches(href: string)
    requires forall p :: !Matches(p, href)
    ensures !IsUsernameHref(href)
  {
  }

  /** A `/posts` href with one more segment is rejected. */
  lemma ExtraSegmentExample()
    ensures !IsUsernameHref("/user/alice/posts/42")
  {
    var h := "/user/alice/posts/42";
    forall p ensures !Matches(p, h) {
      match p
      case UserProfile => SlashInName(p, h, 11);
      case ShortProfile => PrefixMismatch(p, h, 2);
      case UserPosts => SuffixMismatch(p, h);
      case UserComments => SuffixMismatch(p, h);
      case AbsoluteUserProfile => PrefixMismatch(p, h, 0);
      case AbsoluteShortProfile => PrefixMismatch(p, h, 0);
    }
    NoPatternMatches(h);
  }

  /** An href that leaves both the relative prefixes and the Reddit origin early is rejected. */
  lemma PrefixesMismatch(href: string, rel: nat, abs: nat)
    requires rel < 3 && (rel >= |href| || (href[rel] != "/user/"[rel] && href[rel] != "/u/"[rel]))
    requires abs < |REDDIT_ORIGIN| && (abs >= |href| || href[abs] != REDDIT_ORIGIN[abs])
    ensures !IsUsernameHref(href)
  {
    forall p ensures !Matches(p, href) {
      if p.AbsoluteUserProfile? || p.AbsoluteShortProfile? {
        PrefixMismatch(p, href, abs);
      } else {
        PrefixMismatch(p, href, rel);
      }
    }
  }

  /** Another letter case, another scheme or host, and the empty href are rejected. */
  lemma RejectedExamples()
    ensures !IsUsernameHref("/User/x")
    ensures !IsUsernameHref("http://www.reddit.com/user/x")
    ensures !IsUsernameHref("https://old.reddit.com/user/x")
    ensures !IsUsernameHref("")
  {
    PrefixesMismatch("/User/x", 1, 0);
    PrefixesMismatch("http://www.reddit.com/user/x", 0, 4);
    PrefixesMismatch("https://old.reddit.com/user/x", 0, 8);
    PrefixesMismatch("", 0, 0);
  }

  /** The extractor on its own reads `alice` out of an href the classifier rejects. */
  lemma PermissiveExtractionExample()
    ensures ExtractUsername("/user/alice/posts/42") == Some("alice")
  {
    var a := "/user/alice/posts/42";
    CapturesAfterMarker(a, 0, "/user/", "alice", "/posts/42");
    ExtractUsernameSpec(a, "alice");
  }

  /** A `/u/` with nothing after it is skipped in favour of the next occurrence. */
  lemma LeftmostExtractionExample()
    ensures ExtractUsername("/u//user/bob") == Some("bob")
  {
    var b := "/u//user/bob";
    CapturesAfterMarker(b, 3, "/user/", "bob", "");
    assert !OccursAt(b, 0) by {
      assert b[3] == '/' && b[0..][2] != "/user/"[2];
    }
    assert !OccursAt(b, 1) by {
      assert b[1..][0] != '/';
    }
    assert !OccursAt(b, 2) by {
      assert b[2..][1] != "/u/"[1] && b[2..][1] != "/user/"[1];
    }
    assert NoOccurrence(b, 0, 3);
    ExtractUsernameSpec(b, "bob");
  }

  /** A subreddit link yields null. */
  lemma NoExtractionExample()
    ensures ExtractUsername("/r/rust") == None
  {
    var c := "/r/rust";
    forall j ensures !OccursAt(c, j) {
      if 0 <= j < |c| - 1 {
        assert c[j] != '/' || c[j + 1] != 'u';
      }
    }
    ExtractUsernameNone(c);
  }
}
