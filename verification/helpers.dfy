/** The bot's string helpers: file extension and file type, file-name sanitising, the
    Google Drive id scanner, the link classifiers, the URL scanner and the headline of the
    batch summary. */
module Helpers {
  import opened Text
  import opened Patterns

  // ---------------------------------------------------------------------------
  // Extensions and file types
  // ---------------------------------------------------------------------------

  /** A '.' occurs among the last six characters of `s`. */
  predicate DotInLastSix(s: string) {
    exists k :: 0 <= k < |s| && |s| - k <= 6 && s[k] == '.'
  }

  /** The extension the bot reports for a file name: the text after the last '.',
      lower-cased and with its dot, or "" when there is no dot or the result would be
      longer than six characters. */
  function GetFileExtension(filename: string): (r: string)
    ensures r == "" || (r[0] == '.' && |r| <= 6 && '.' !in r[1..] && IsLowerAscii(r))
    ensures r != "" ==> IsSuffix(r, Lower(filename))
    ensures r != "" <==> DotInLastSix(filename)
  {
    if filename == "" then ""
    else
      match RFind(filename, '.')
      case None => ""
      case Some(dot) =>
        var ext := "." + Lower(filename[dot + 1..]);
        ExtensionShape(filename[dot + 1..]);
        ExtensionIsSuffix(filename, dot);
        LastDotDecidesWindow(filename, dot);
        if |ext| <= 6 then ext else ""
  }

  /** A dot followed by the lower-cased text after the last dot has the shape of an
      extension. */
  lemma ExtensionShape(tail: string)
    requires '.' !in tail
    ensures var r := "." + Lower(tail); r[0] == '.' && '.' !in r[1..] && IsLowerAscii(r)
  {
    var r := "." + Lower(tail);
    LowerIsLower(tail);
    assert r[1..] == Lower(tail);
    forall k | 0 <= k < |tail| ensures Lower(tail)[k] != '.' {
      assert tail[k] != '.';
    }
  }

  /** The lower-cased text from a dot on is a suffix of the lower-cased name. */
  lemma ExtensionIsSuffix(filename: string, dot: nat)
    requires dot < |filename| && filename[dot] == '.'
    ensures IsSuffix("." + Lower(filename[dot + 1..]), Lower(filename))
  {
    LowerSlice(filename, dot, |filename|);
    assert filename[dot..] == "." + filename[dot + 1..];
    LowerAppend(".", filename[dot + 1..]);
  }

  /** A dot occurs among the last six characters exactly when the last dot does. */
  lemma LastDotDecidesWindow(filename: string, dot: nat)
    requires dot < |filename| && filename[dot] == '.'
    requires forall k :: dot < k < |filename| ==> filename[k] != '.'
    ensures DotInLastSix(filename) <==> |filename| - dot <= 6
  {
  }

  datatype FileType = Video | Audio | Image | Pdf | Apk | Archive | Document

  const VideoExtensions: seq<string> :=
    [".mp4", ".mkv", ".avi", ".mov", ".wmv", ".flv", ".webm", ".m4v", ".3gp", ".mpeg", ".mpg", ".ts"]
  const AudioExtensions: seq<string> :=
    [".mp3", ".wav", ".flac", ".aac", ".ogg", ".wma", ".m4a", ".opus", ".amr"]
  const ImageExtensions: seq<string> :=
    [".jpg", ".jpeg", ".png", ".gif", ".bmp", ".webp", ".tiff", ".ico"]
  const ArchiveExtensions: seq<string> := [".zip", ".rar", ".7z", ".tar", ".gz"]

  /** The category of a file, from its extension; the tests run in the order video,
      audio, image, pdf, apk, archive, and everything else is a document. */
  function GetFileType(extension: string): (r: FileType)
    ensures extension == "" ==> r == Document
    ensures r == Video <==> Lower(extension) in VideoExtensions
    ensures r == Pdf <==> Lower(extension) == ".pdf"
    ensures r == Document ==> Lower(extension) !in VideoExtensions + AudioExtensions + ImageExtensions + ArchiveExtensions
  {
    if extension == "" then Document
    else if Lower(extension) in VideoExtensions then Video
    else if Lower(extension) in AudioExtensions then Audio
    else if Lower(extension) in ImageExtensions then Image
    else if Lower(extension) == ".pdf" then Pdf
    else if Lower(extension) == ".apk" then Apk
    else if Lower(extension) in ArchiveExtensions then Archive
    else Document
  }

  /** The file type ignores the case of the extension. */
  lemma GetFileTypeIgnoresCase(extension: string)
    ensures GetFileType(Lower(extension)) == GetFileType(extension)
  {
    LowerIsLower(extension);
  }

  /** Every listed extension is already lower case. */
  lemma ListedExtensionsAreLower(ext: string)
    requires ext in VideoExtensions + AudioExtensions + ImageExtensions + ArchiveExtensions
    ensures Lower(ext) == ext
  {
    if ext in VideoExtensions {
      VideoExtensionsAreLower(ext);
    } else if ext in AudioExtensions {
      AudioExtensionsAreLower(ext);
    } else if ext in ImageExtensions {
      ImageExtensionsAreLower(ext);
    } else {
      ArchiveExtensionsAreLower(ext);
    }
    LowerOfLower(ext);
  }

  lemma VideoExtensionsAreLower(ext: string)
    requires ext in VideoExtensions
    ensures IsLowerAscii(ext)
  {
  }

  lemma AudioExtensionsAreLower(ext: string)
    requires ext in AudioExtensions
    ensures IsLowerAscii(ext)
  {
  }

  lemma ImageExtensionsAreLower(ext: string)
    requires ext in ImageExtensions
    ensures IsLowerAscii(ext)
  {
  }

  lemma ArchiveExtensionsAreLower(ext: string)
    requires ext in ArchiveExtensions
    ensures IsLowerAscii(ext)
  {
  }

  /** The extension lists do not overlap, so every listed extension gets the category of
      its own list whatever the order of the tests. */
  lemma AudioExtensionsAreAudio(ext: string)
    requires ext in AudioExtensions
    ensures GetFileType(ext) == Audio
  {
    ListedExtensionsAreLower(ext);
    AudioExtensionsAreUnlisted(ext);
  }

  lemma AudioExtensionsAreUnlisted(ext: string)
    requires ext in AudioExtensions
    ensures ext !in VideoExtensions
  {
  }

  lemma ImageExtensionsAreImages(ext: string)
    requires ext in ImageExtensions
    ensures GetFileType(ext) == Image
  {
    ListedExtensionsAreLower(ext);
    ImageExtensionsAreUnlisted(ext);
  }

  lemma ImageExtensionsAreUnlisted(ext: string)
    requires ext in ImageExtensions
    ensures ext !in VideoExtensions && ext !in AudioExtensions
  {
  }

  lemma ArchiveExtensionsAreArchives(ext: string)
    requires ext in ArchiveExtensions
    ensures GetFileType(ext) == Archive
  {
    ListedExtensionsAreLower(ext);
    ArchiveExtensionsAreUnlisted(ext);
  }

  lemma ArchiveExtensionsAreUnlisted(ext: string)
    requires ext in ArchiveExtensions
    ensures ext !in VideoExtensions && ext !in AudioExtensions && ext !in ImageExtensions
    ensures ext != ".pdf" && ext != ".apk"
  {
  }

  // ---------------------------------------------------------------------------
  // File-name sanitising
  // ---------------------------------------------------------------------------

  /** The characters `sanitize_filename` replaces by '_'. */
  const InvalidChars: string := ['<', '>', ':', '"', '/', '\\', '|', '?', '*', '\0', '\n', '\r', '\t']
  /** The characters stripped from both ends afterwards. */
  const EdgeChars: set<char> := {'.', ' ', '\t', '\n', '\r'}
  const DefaultFileName: string := "downloaded_file"
  const MaxFileNameLength: nat := 200

  /** Python's `str.replace(c, by)` for one character. */
  function ReplaceChar(s: string, c: char, repl: char): (r: string)
    ensures |r| == |s|
    ensures forall k :: 0 <= k < |s| ==> r[k] == if s[k] == c then repl else s[k]
  {
    seq(|s|, k requires 0 <= k < |s| => if s[k] == c then repl else s[k])
  }

  /** `s` with every character of `chars` turned into '_'. */
  function ReplaceAll(s: string, chars: string): (r: string)
    ensures |r| == |s|
    ensures forall k :: 0 <= k < |s| ==> r[k] == if s[k] in chars then '_' else s[k]
  {
    seq(|s|, k requires 0 <= k < |s| => if s[k] in chars then '_' else s[k])
  }

  /** One more `replace` call extends the set of replaced characters by one. */
  lemma ReplaceOneMore(s: string, chars: string, i: nat)
    requires i < |chars|
    ensures ReplaceChar(ReplaceAll(s, chars[..i]), chars[i], '_') == ReplaceAll(s, chars[..i + 1])
  {
    assert forall c :: c in chars[..i + 1] <==> c in chars[..i] || c == chars[i];
  }

  /** Replacing the invalid characters leaves none of them. */
  lemma ReplaceAllRemoves(s: string)
    ensures forall k :: 0 <= k < |s| ==> ReplaceAll(s, InvalidChars)[k] !in InvalidChars
  {
    assert '_' !in InvalidChars;
  }

  /** Stripping only removes characters, so it cannot bring an invalid one back. */
  lemma StripKeepsValid(s: string)
    requires forall k :: 0 <= k < |s| ==> s[k] !in InvalidChars
    ensures forall k :: 0 <= k < |Strip(s, EdgeChars)| ==> Strip(s, EdgeChars)[k] !in InvalidChars
  {
    StripChars(s, EdgeChars);
  }

  /** `name[:200 - len(ext)] + ext` with `name, ext = os.path.splitext(s)`, for a name over
      the limit: the extension is kept, and what comes before it is a prefix of the name,
      cut so that the whole is 200 characters long when the extension fits, and shortened
      from the end by the excess of the extension (Python's negative slice) otherwise. */
  function Shorten(s: string): (r: string)
    requires |s| > MaxFileNameLength
    ensures var (root, ext) := SplitExt(s);
      |ext| <= |r| && IsSuffix(ext, r) && IsPrefix(r[..|r| - |ext|], root)
      && (|ext| <= MaxFileNameLength ==> |r| == MaxFileNameLength)
      && (|ext| > MaxFileNameLength ==>
            |r| - |ext| == if |root| + MaxFileNameLength >= |ext| then |root| + MaxFileNameLength - |ext| else 0)
  {
    var (root, ext) := SplitExt(s);
    var kept := SliceTo(root, MaxFileNameLength - |ext|);
    assert (kept + ext)[..|kept|] == kept;
    kept + ext
  }

  /** Shortening only drops characters, so it cannot bring an invalid one back. */
  lemma ShortenKeepsValid(s: string)
    requires |s| > MaxFileNameLength
    requires forall k :: 0 <= k < |s| ==> s[k] !in InvalidChars
    ensures forall k :: 0 <= k < |Shorten(s)| ==> Shorten(s)[k] !in InvalidChars
  {
    var (root, ext) := SplitExt(s);
    var r := Shorten(s);
    assert s == root + ext;
    forall k | 0 <= k < |r| ensures r[k] !in InvalidChars {
      if k < |r| - |ext| {
        assert r[k] == r[..|r| - |ext|][k] == root[k] == s[k];
      } else {
        assert r[k] == ext[k - (|r| - |ext|)] == s[|root| + k - (|r| - |ext|)];
      }
    }
  }

  lemma DefaultFileNameIsValid()
    ensures forall k :: 0 <= k < |DefaultFileName| ==> DefaultFileName[k] !in InvalidChars
  {
  }

  /** Makes a name safe for the file system. `unquote` stands for `urllib.parse.unquote`,
      which is applied to every non-empty name before the bot's own rules. */
  method SanitizeFilename(filename: string, unquote: string -> string) returns (r: string)
    ensures r != ""
    ensures forall k :: 0 <= k < |r| ==> r[k] !in InvalidChars
    ensures filename == "" ==> r == DefaultFileName
    ensures filename != "" ==>
      var s := Strip(ReplaceAll(unquote(filename), InvalidChars), EdgeChars);
      var ext := SplitExt(s).1;
      (s == "" ==> r == DefaultFileName) &&
      (0 < |s| <= MaxFileNameLength ==> r == s) &&
      (|s| > MaxFileNameLength ==> r == Shorten(s)) &&
      (|s| > MaxFileNameLength && |ext| <= MaxFileNameLength ==>
         |r| == MaxFileNameLength && IsSuffix(ext, r) && IsPrefix(r[..MaxFileNameLength - |ext|], s))
  {
    if filename == "" {
      DefaultFileNameIsValid();
      return DefaultFileName;
    }
    var decoded := unquote(filename);
    var name := decoded;
    for i := 0 to |InvalidChars|
      invariant name == ReplaceAll(decoded, InvalidChars[..i])
    {
      ReplaceOneMore(decoded, InvalidChars, i);
      name := ReplaceChar(name, InvalidChars[i], '_');
    }
    assert InvalidChars[..|InvalidChars|] == InvalidChars;
    ReplaceAllRemoves(decoded);
    StripKeepsValid(name);
    name := Strip(name, EdgeChars);
    if |name| > MaxFileNameLength {
      ShortenKeepsValid(name);
      ShortenKeepsPrefix(name);
      name := Shorten(name);
    }
    DefaultFileNameIsValid();
    r := if name != "" then name else DefaultFileName;
  }

  /** When the extension fits, the first `200 - len(ext)` characters are the name's own. */
  lemma ShortenKeepsPrefix(s: string)
    requires |s| > MaxFileNameLength
    ensures var ext := SplitExt(s).1;
      |ext| <= MaxFileNameLength ==> IsPrefix(Shorten(s)[..MaxFileNameLength - |ext|], s)
  {
    var (root, ext) := SplitExt(s);
    assert s == root + ext;
  }

  // ---------------------------------------------------------------------------
  // Google Drive ids
  // ---------------------------------------------------------------------------

  /** `/file/d/(...)`, `id=(...)`, `/folders/(...)`, `open\?id=(...)`, in that order. */
  const GdrivePatterns: seq<Pattern> :=
    [Literal(["/file/d/"]), Literal(["id="]), Literal(["/folders/"]), Literal(["open?id="])]

  /** The capture of the first of the four patterns that matches anywhere in the link. */
  method ExtractGdriveId(url: string) returns (r: Option<string>)
    ensures r == FirstMatch(url, GdrivePatterns)
    ensures r.Some? ==> IsIdRun(r.value)
    ensures r.None? <==> forall n :: 0 <= n < |GdrivePatterns| ==> Search(url, GdrivePatterns[n]).None?
  {
    r := SearchInOrder(url, GdrivePatterns);
  }

  /** Whenever `open?id=` matches, `id=` matches too, five characters further on: the
      fourth pattern never decides the result. */
  lemma OpenIdPatternIsShadowed(url: string)
    ensures FirstMatch(url, GdrivePatterns) == FirstMatch(url, GdrivePatterns[..3])
  {
    GdrivePatternsEndWithOpenId();
    SearchIdFollowsOpen(url);
    FirstMatchDropsShadowed(url, GdrivePatterns[..3], Literal(["open?id="]), 1);
  }

  lemma GdrivePatternsEndWithOpenId()
    ensures GdrivePatterns == GdrivePatterns[..3] + [Literal(["open?id="])]
    ensures GdrivePatterns[..3][1] == Literal(["id="])
  {
  }

  lemma SearchIdFollowsOpen(url: string)
    ensures Search(url, Literal(["open?id="])).Some? ==> Search(url, Literal(["id="])).Some?
  {
    if Search(url, Literal(["open?id="])).Some? {
      var k :| 0 <= k <= |url| && MatchAt(url, k, Literal(["open?id="])).Some?;
      IdFollowsOpen(url, k);
    }
  }

  lemma IdFollowsOpen(url: string, k: nat)
    requires k <= |url| && MatchAt(url, k, Literal(["open?id="])).Some?
    ensures k + 5 <= |url| && MatchAt(url, k + 5, Literal(["id="])).Some?
  {
    var alt := "open?id=";
    assert IsPrefix(alt, url[k..]) && k + |alt| < |url| && IsIdChar(url[k + |alt|]);
    assert url[k + 5..][..3] == url[k..][5..8] == "id=";
  }

  // ---------------------------------------------------------------------------
  // Link classifiers
  // ---------------------------------------------------------------------------

  const GdriveHosts: seq<string> :=
    ["drive.google.com", "docs.google.com", "drive.usercontent.google.com", "storage.googleapis.com"]

  const TeraboxHosts: seq<string> :=
    ["terabox.com", "teraboxapp.com", "1024terabox.com", "1024tera.com",
     "nephobox.com", "teraboxurl.com", "terasharefile.com", "freeterabox.com",
     "4funbox.com", "mirrobox.com", "momerybox.com", "terabox.link", "tbx.to"]

  /** The module-level platform list, group by group and in its order: the Google hosts,
      the Terabox family (the Terabox hosts with "dm.nephobox.com" after "nephobox.com"),
      social media, video platforms, education, file hosting, image hosting. */
  const SupportedPlatforms: seq<string> :=
    GdriveHosts + TeraboxHosts[..5] + ["dm.nephobox.com"] + TeraboxHosts[5..] + OtherPlatforms

  const OtherPlatforms: seq<string> :=
    ["youtube.com", "youtu.be", "facebook.com", "fb.watch", "fb.com",
     "instagram.com", "instagr.am", "twitter.com", "x.com",
     "tiktok.com", "reddit.com", "pinterest.com", "linkedin.com",
     "snapchat.com", "threads.net",
     "vimeo.com", "dailymotion.com", "twitch.tv", "bilibili.com",
     "nicovideo.jp", "vlive.tv", "weibo.com", "douyin.com",
     "rumble.com", "bitchute.com", "odysee.com",
     "streamable.com", "streamja.com", "gfycat.com",
     "udemy.com", "coursera.org", "skillshare.com", "lynda.com",
     "pluralsight.com", "edx.org", "khanacademy.org", "masterclass.com",
     "mediafire.com", "mega.nz", "ok.ru", "vk.com",
     "imgur.com", "giphy.com"]

  const DirectFileExtensions: seq<string> :=
    [".mp4", ".mkv", ".avi", ".mov", ".webm", ".flv", ".3gp",
     ".mp3", ".wav", ".flac", ".aac", ".ogg", ".m4a",
     ".pdf", ".zip", ".rar", ".7z", ".apk",
     ".jpg", ".jpeg", ".png", ".gif", ".webp",
     ".doc", ".docx", ".xls", ".xlsx", ".ppt", ".pptx"]

  /** `any(p in s for p in subs)`. */
  predicate ContainsAny(s: string, subs: seq<string>) {
    exists p :: p in subs && Contains(s, p)
  }

  predicate IsGdriveLink(url: string) {
    ContainsAny(Lower(url), GdriveHosts)
  }

  predicate IsTeraboxLink(url: string) {
    ContainsAny(Lower(url), TeraboxHosts)
  }

  predicate IsSchemeChar(c: char) {
    ('a' <= c <= 'z') || ('A' <= c <= 'Z') || ('0' <= c <= '9') || c == '+' || c == '-' || c == '.'
  }

  /** A simplified path component of `urllib.parse.urlparse(url)`: drop the scheme (letters
      first, then letters, digits, '+', '-', '.', up to the first ':'), then `//` and the
      network location up to the next '/', '?' or '#', and keep everything before '#' and '?'.
      It does not split off `;params`, does not remove tab, CR and LF or leading control
      characters, and does not fail on an unbalanced '[' or ']' in the network location. */
  function UrlPath(url: string): (r: string)
    ensures |r| <= |url|
  {
    var colon := FindAnyFrom(url, {':'}, 0);
    var afterScheme :=
      if 0 < colon < |url| && ('a' <= url[0] <= 'z' || 'A' <= url[0] <= 'Z')
         && forall k :: 0 <= k < colon ==> IsSchemeChar(url[k])
      then url[colon + 1..] else url;
    var afterNetloc :=
      if IsPrefix("//", afterScheme) then afterScheme[FindAnyFrom(afterScheme, {'/', '?', '#'}, 2)..]
      else afterScheme;
    var beforeFragment := afterNetloc[..FindAnyFrom(afterNetloc, {'#'}, 0)];
    beforeFragment[..FindAnyFrom(beforeFragment, {'?'}, 0)]
  }

  /** Known platform, a path ending in a known file extension, or any http/https link. */
  predicate IsSupportedLink(url: string) {
    ContainsAny(Lower(url), SupportedPlatforms)
    || (exists e :: e in DirectFileExtensions && IsSuffix(e, Lower(UrlPath(url))))
    || IsPrefix("http://", url) || IsPrefix("https://", url)
  }

  /** `is_direct_link` is `is_supported_link` under another name. */
  function IsDirectLink(url: string): (r: bool)
    ensures IsPrefix("http://", url) || IsPrefix("https://", url) ==> r
    ensures IsGdriveLink(url) || IsTeraboxLink(url) ==> r
  {
    KnownHostsAreSupported(url);
    IsSupportedLink(url)
  }

  /** Every Google Drive host and every Terabox host is on the platform list, so the
      handler's `is_gdrive_link or is_terabox_link or is_direct_link` is `is_supported_link`. */
  lemma KnownHostsAreSupported(url: string)
    ensures IsGdriveLink(url) || IsTeraboxLink(url) ==> IsSupportedLink(url)
  {
    if IsGdriveLink(url) {
      var p :| p in GdriveHosts && Contains(Lower(url), p);
      assert p in SupportedPlatforms;
    } else if IsTeraboxLink(url) {
      var p :| p in TeraboxHosts && Contains(Lower(url), p);
      var i :| 0 <= i < |TeraboxHosts| && TeraboxHosts[i] == p;
      if i < 5 {
        assert TeraboxHosts[..5][i] == p;
      } else {
        assert TeraboxHosts[5..][i - 5] == p;
      }
      assert p in SupportedPlatforms;
    }
  }

  /** The host tests ignore case. */
  lemma HostTestsIgnoreCase(url: string)
    ensures IsGdriveLink(Lower(url)) == IsGdriveLink(url)
    ensures IsTeraboxLink(Lower(url)) == IsTeraboxLink(url)
  {
    LowerIsLower(url);
  }

  // ---------------------------------------------------------------------------
  // URL scanner: re.findall(r'https?://[^\s<>"{}|\\^`\[\]]+', text)
  // ---------------------------------------------------------------------------

  const UrlStopChars: set<char> := Whitespace + {'<', '>', '"', '{', '}', '|', '\\', '^', '`', '[', ']'}

  predicate IsUrlChar(c: char) {
    c !in UrlStopChars
  }

  /** What the pattern accepts: `http://` or `https://` and then one or more URL characters. */
  predicate IsLink(s: string) {
    ((IsPrefix("http://", s) && |s| > 7) || (IsPrefix("https://", s) && |s| > 8))
    && forall k :: 0 <= k < |s| ==> IsUrlChar(s[k])
  }

  /** Length of the greedy run of URL characters starting at `i`. */
  function UrlRunLength(s: string, i: nat): (n: nat)
    requires i <= |s|
    ensures i + n <= |s|
    ensures forall k :: i <= k < i + n ==> IsUrlChar(s[k])
    ensures i + n == |s| || !IsUrlChar(s[i + n])
    decreases |s| - i
  {
    if i < |s| && IsUrlChar(s[i]) then 1 + UrlRunLength(s, i + 1) else 0
  }

  /** Where the body of a URL starts when the pattern matches at `i`. `s?` is tried with
      the 's' first; without it, "://" would have to sit where the 's' is. */
  function UrlBodyAt(s: string, i: nat): (r: Option<nat>)
    requires i <= |s|
    ensures r.Some? ==> r.value < |s| && IsUrlChar(s[r.value])
    ensures r.Some? ==> (r.value == i + 8 && IsPrefix("https://", s[i..])) || (r.value == i + 7 && IsPrefix("http://", s[i..]))
  {
    if IsPrefix("https://", s[i..]) && i + 8 < |s| && IsUrlChar(s[i + 8]) then Some(i + 8)
    else if IsPrefix("http://", s[i..]) && i + 7 < |s| && IsUrlChar(s[i + 7]) then Some(i + 7)
    else None
  }

  /** `[lo, hi)` is a whole match of the pattern starting at or after `from`: a link that the
      greedy character class could not extend. */
  predicate IsLinkSpan(s: string, from: nat, span: (nat, nat)) {
    from <= span.0 < span.1 <= |s| && IsLink(s[span.0..span.1])
    && (span.1 == |s| || !IsUrlChar(s[span.1]))
  }

  lemma SchemeIsUrlChars(p: string)
    requires p == "http://" || p == "https://"
    ensures forall k :: 0 <= k < |p| ==> IsUrlChar(p[k])
  {
  }

  /** A match at `i` runs to the end of the URL characters after its scheme. */
  lemma LinkAt(s: string, i: nat, b: nat)
    requires i <= |s| && UrlBodyAt(s, i) == Some(b)
    ensures IsLinkSpan(s, i, (i, LinkEnd(s, b)))
  {
    if b == i + 8 {
      LinkAfter(s, i, b, "https://");
    } else {
      LinkAfter(s, i, b, "http://");
    }
  }

  lemma LinkAfter(s: string, i: nat, b: nat, scheme: string)
    requires scheme == "http://" || scheme == "https://"
    requires b == i + |scheme| && b < |s| && IsPrefix(scheme, s[i..]) && IsUrlChar(s[b])
    ensures IsLinkSpan(s, i, (i, LinkEnd(s, b)))
  {
    var e := LinkEnd(s, b);
    SchemeIsUrlChars(scheme);
    assert forall k :: i <= k < b ==> s[k] == s[i..][k - i] == scheme[k - i];
    UrlCharsSlice(s, i, e);
    assert s[i..e][..b - i] == scheme;
  }

  lemma UrlCharsSlice(s: string, lo: nat, hi: nat)
    requires lo <= hi <= |s|
    requires forall k :: lo <= k < hi ==> IsUrlChar(s[k])
    ensures forall k :: 0 <= k < hi - lo ==> IsUrlChar(s[lo..hi][k])
  {
  }

  /** Where a link whose body starts at `b` ends: the greedy run of URL characters. */
  function LinkEnd(s: string, b: nat): nat
    requires b <= |s|
  {
    b + UrlRunLength(s, b)
  }

  /** The spans `[start, end)` of `re.findall`, scanning from `i`. */
  function FindLinkSpans(s: string, i: nat): (r: seq<(nat, nat)>)
    requires i <= |s|
    decreases |s| - i
  {
    if i == |s| then []
    else if UrlBodyAt(s, i).None? then FindLinkSpans(s, i + 1)
    else [(i, LinkEnd(s, UrlBodyAt(s, i).value))] + FindLinkSpans(s, LinkEnd(s, UrlBodyAt(s, i).value))
  }

  /** Every span is a whole link after `from`, and the spans come in order without
      overlapping. */
  predicate LinkSpans(s: string, from: nat, r: seq<(nat, nat)>) {
    (forall n :: 0 <= n < |r| ==> IsLinkSpan(s, from, r[n])) &&
    (forall n :: 0 < n < |r| ==> r[n - 1].1 <= r[n].0)
  }

  /** Spans that are links after `j` are links after any earlier `i`. */
  lemma LinkSpansWiden(s: string, i: nat, j: nat, r: seq<(nat, nat)>)
    requires i <= j && LinkSpans(s, j, r)
    ensures LinkSpans(s, i, r)
  {
    forall n | 0 <= n < |r| ensures IsLinkSpan(s, i, r[n]) {
      assert IsLinkSpan(s, j, r[n]);
    }
  }

  /** A link at `i` followed by the spans after its end. */
  lemma LinkSpansCons(s: string, i: nat, span: (nat, nat), rest: seq<(nat, nat)>)
    requires IsLinkSpan(s, i, span) && LinkSpans(s, span.1, rest)
    ensures LinkSpans(s, i, [span] + rest)
  {
    var r := [span] + rest;
    forall n | 0 <= n < |r| ensures IsLinkSpan(s, i, r[n]) {
      if n > 0 {
        assert r[n] == rest[n - 1] && IsLinkSpan(s, span.1, rest[n - 1]);
      }
    }
    forall n | 0 < n < |r| ensures r[n - 1].1 <= r[n].0 {
      assert r[n] == rest[n - 1];
      if n > 1 {
        assert r[n - 1] == rest[n - 2];
      } else {
        assert IsLinkSpan(s, span.1, rest[0]);
      }
    }
  }

  /** The spans `FindLinkSpans` finds from `i` on are `LinkSpans` after `i`. */
  lemma {:induction false} LinkSpansValid(s: string, i: nat)
    requires i <= |s|
    ensures LinkSpans(s, i, FindLinkSpans(s, i))
    decreases |s| - i
  {
    if i < |s| {
      match UrlBodyAt(s, i)
      case None =>
        LinkSpansValid(s, i + 1);
        LinkSpansWiden(s, i, i + 1, FindLinkSpans(s, i + 1));
        FindLinkSpansSkip(s, i);
      case Some(b) =>
        var e := LinkEnd(s, b);
        LinkAt(s, i, b);
        LinkSpansValid(s, e);
        LinkSpansCons(s, i, (i, e), FindLinkSpans(s, e));
        FindLinkSpansTake(s, i, b);
    }
  }

  lemma FindLinkSpansSkip(s: string, i: nat)
    requires i < |s| && UrlBodyAt(s, i).None?
    ensures FindLinkSpans(s, i) == FindLinkSpans(s, i + 1)
  {
  }

  lemma FindLinkSpansTake(s: string, i: nat, b: nat)
    requires i < |s| && UrlBodyAt(s, i) == Some(b)
    ensures FindLinkSpans(s, i) == [(i, LinkEnd(s, b))] + FindLinkSpans(s, LinkEnd(s, b))
  {
  }

  /** Position `k` lies inside one of the spans. */
  predicate Covers(spans: seq<(nat, nat)>, k: nat) {
    exists n :: 0 <= n < |spans| && spans[n].0 <= k < spans[n].1
  }

  lemma CoversCons(span: (nat, nat), rest: seq<(nat, nat)>, k: nat)
    requires span.0 <= k < span.1 || Covers(rest, k)
    ensures Covers([span] + rest, k)
  {
    var spans := [span] + rest;
    if span.0 <= k < span.1 {
      assert spans[0] == span;
    } else {
      var n :| 0 <= n < |rest| && rest[n].0 <= k < rest[n].1;
      assert spans[n + 1] == rest[n];
    }
  }

  /** No match is skipped: every position where the pattern matches lies inside a span
      found from `i` on, either as its start or inside an earlier, longer match. */
  lemma {:induction false} FindLinkSpansComplete(s: string, i: nat)
    requires i <= |s|
    ensures forall k :: i <= k < |s| && UrlBodyAt(s, k).Some? ==> Covers(FindLinkSpans(s, i), k)
    decreases |s| - i
  {
    if i < |s| {
      match UrlBodyAt(s, i)
      case None =>
        FindLinkSpansSkip(s, i);
        FindLinkSpansComplete(s, i + 1);
        forall k | i <= k < |s| && UrlBodyAt(s, k).Some? ensures Covers(FindLinkSpans(s, i), k) {
          assert k != i && Covers(FindLinkSpans(s, i + 1), k);
        }
      case Some(b) =>
        var e := LinkEnd(s, b);
        FindLinkSpansTake(s, i, b);
        FindLinkSpansComplete(s, e);
        forall k | i <= k < |s| && UrlBodyAt(s, k).Some? ensures Covers(FindLinkSpans(s, i), k) {
          CoversCons((i, e), FindLinkSpans(s, e), k);
        }
    }
  }

  function SpanTexts(s: string, spans: seq<(nat, nat)>): (r: seq<string>)
    requires forall n :: 0 <= n < |spans| ==> spans[n].0 <= spans[n].1 <= |s|
    ensures |r| == |spans|
    ensures forall n :: 0 <= n < |r| ==> r[n] == s[spans[n].0..spans[n].1]
  {
    seq(|spans|, n requires 0 <= n < |spans| => s[spans[n].0..spans[n].1])
  }

  /** `[url.strip() for url in urls if url.strip()]`. */
  function StripNonEmpty(urls: seq<string>): (r: seq<string>)
  {
    if urls == [] then []
    else
      var u := Strip(urls[0], Whitespace);
      (if u != "" then [u] else []) + StripNonEmpty(urls[1..])
  }

  /** The list comprehension changes nothing: a link holds no whitespace and is not empty. */
  lemma {:induction false} StripNonEmptyKeepsLinks(urls: seq<string>)
    requires forall n :: 0 <= n < |urls| ==> IsLink(urls[n])
    ensures StripNonEmpty(urls) == urls
  {
    if urls != [] {
      StripNothing(urls[0], Whitespace);
      StripNonEmptyKeepsLinks(urls[1..]);
    }
  }

  /** Every extracted link starts with http:// or https://, is made of URL characters and is
      as long as the pattern allows; the links come in the order of their spans in the text,
      and the spans do not overlap. No match is missed: every position where the pattern
      matches lies inside one of the spans. */
  function ExtractLinksFromText(text: string): (r: seq<string>)
    ensures forall n :: 0 <= n < |r| ==> IsLink(r[n])
    ensures var spans := FindLinkSpans(text, 0);
      |r| == |spans| &&
      (forall n :: 0 <= n < |r| ==>
        spans[n].0 < spans[n].1 <= |text| && r[n] == text[spans[n].0..spans[n].1]) &&
      (forall n :: 0 < n < |r| ==> spans[n - 1].1 <= spans[n].0) &&
      (forall k :: 0 <= k < |text| && UrlBodyAt(text, k).Some? ==>
        exists n :: 0 <= n < |spans| && spans[n].0 <= k < spans[n].1)
  {
    var spans := FindLinkSpans(text, 0);
    LinkSpansValid(text, 0);
    FindLinkSpansComplete(text, 0);
    var urls := SpanTexts(text, spans);
    StripNonEmptyKeepsLinks(urls);
    StripNonEmpty(urls)
  }

  /** Every extracted link is a supported link: the handler's "no supported links" reply
      can only follow an empty extraction. */
  lemma ExtractedLinksAreSupported(text: string)
    ensures forall n :: 0 <= n < |ExtractLinksFromText(text)| ==>
      IsSupportedLink(ExtractLinksFromText(text)[n]) && IsDirectLink(ExtractLinksFromText(text)[n])
  {
  }

  // ---------------------------------------------------------------------------
  // Batch summary
  // ---------------------------------------------------------------------------

  /** The `results` dictionary of the consumer loop. */
  datatype Results = Results(total: int, success: int, failed: int, fileTypes: map<FileType, nat>)

  datatype Headline = AllCompleted | SomeIssues | AllFailed

  /** What `generate_summary` reports; the decorative text around it is not modelled. */
  datatype Summary = Summary(headline: Headline, successful: int, failed: int, total: int,
                             fileTypeSection: Option<map<FileType, nat>>)

  function GenerateSummary(results: Results): (r: Summary)
    ensures r.headline == AllCompleted <==> results.success == results.total > 0
    ensures r.headline == SomeIssues <==> 0 < results.success != results.total
    ensures r.headline == AllFailed <==> results.success <= 0
    ensures r.fileTypeSection.Some? <==> results.fileTypes != map[]
    ensures r.fileTypeSection.Some? ==> r.fileTypeSection.value == results.fileTypes
    ensures (r.successful, r.failed, r.total) == (results.success, results.failed, results.total)
  {
    var headline :=
      if results.success == results.total && results.total > 0 then AllCompleted
      else if results.success > 0 then SomeIssues
      else AllFailed;
    Summary(headline, results.success, results.failed, results.total,
            if results.fileTypes != map[] then Some(results.fileTypes) else None)
  }
}
