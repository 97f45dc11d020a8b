/** The pure decisions of the Terabox/direct downloader: share-id extraction and URL
    normalisation, the Content-Type table, the magic-byte classifier, the validation verdict,
    the two extension fixes, the unique-path loop and the folder test. Network and file-system
    calls are replaced by their results, passed in as parameters. */
module Downloder {
  import opened Text
  import opened Patterns
  import Helpers

  // ---------------------------------------------------------------------------
  // Terabox share ids
  // ---------------------------------------------------------------------------

  /** `[?&]surl=`, `/s/1?`, `tbx\.to/`, `terabox\.link/`, `/sharing/(?:link|video)\?surl=`,
      `/wap/share/filelist\?surl=`, each followed by the captured id, in that order. */
  const TeraboxPatterns: seq<Pattern> :=
    [SurlQuery, ShareLink, Literal(["tbx.to/"]), Literal(["terabox.link/"]), SharingQuery, FileListQuery]

  const SurlQuery: Pattern := Literal(["?surl=", "&surl="])
  const SharingQuery: Pattern := Literal(["/sharing/link?surl=", "/sharing/video?surl="])
  const FileListQuery: Pattern := Literal(["/wap/share/filelist?surl="])

  /** The capture of the first of the six patterns that matches anywhere in the link. */
  method ExtractTeraboxSurl(url: string) returns (r: Option<string>)
    ensures r == FirstMatch(url, TeraboxPatterns)
    ensures r.Some? ==> IsIdRun(r.value)
    ensures r.None? <==> forall n :: 0 <= n < |TeraboxPatterns| ==> Search(url, TeraboxPatterns[n]).None?
  {
    r := SearchInOrder(url, TeraboxPatterns);
  }

  /** Both `/sharing/...?surl=` markers and `/wap/share/filelist?surl=` end in `?surl=`, so
      the first pattern matches wherever the fifth or the sixth does: those two never decide. */
  lemma SharingPatternsAreShadowed(url: string)
    ensures FirstMatch(url, TeraboxPatterns) == FirstMatch(url, TeraboxPatterns[..4])
  {
    TeraboxPatternsEnd();
    SurlQueryShadows(url, SharingQuery);
    SurlQueryShadows(url, FileListQuery);
    FirstMatchDropsShadowed(url, TeraboxPatterns[..5], FileListQuery, 0);
    FirstMatchDropsShadowed(url, TeraboxPatterns[..4], SharingQuery, 0);
  }

  lemma TeraboxPatternsEnd()
    ensures TeraboxPatterns == TeraboxPatterns[..5] + [FileListQuery]
    ensures TeraboxPatterns[..5] == TeraboxPatterns[..4] + [SharingQuery]
    ensures TeraboxPatterns[..5][0] == TeraboxPatterns[..4][0] == SurlQuery
  {
  }

  /** Every alternative of the pattern ends in "?surl=". */
  predicate EndsInSurlQuery(p: Pattern) {
    p.Literal? && forall a :: a in p.alternatives ==> |a| >= 6 && a[|a| - 6..] == "?surl="
  }

  lemma SurlQueryShadows(url: string, p: Pattern)
    requires p == SharingQuery || p == FileListQuery
    ensures Search(url, p).Some? ==> Search(url, SurlQuery).Some?
  {
    if Search(url, p).Some? {
      var k :| 0 <= k <= |url| && MatchAt(url, k, p).Some?;
      EndingsOfQueries(p);
      var m := SurlQueryInside(url, k, p.alternatives);
    }
  }

  lemma EndingsOfQueries(p: Pattern)
    requires p == SharingQuery || p == FileListQuery
    ensures EndsInSurlQuery(p)
  {
  }

  /** A match of a marker that ends in "?surl=" is a match of `[?&]surl=` six characters
      before the capture. */
  lemma SurlQueryInside(url: string, k: nat, alts: seq<string>) returns (m: nat)
    requires k <= |url| && LiteralMatch(url, k, alts).Some?
    requires EndsInSurlQuery(Literal(alts))
    ensures m <= |url| && MatchAt(url, m, SurlQuery).Some?
  {
    var a :| a in alts && IsPrefix(a, url[k..]) && k + |a| < |url| && IsIdChar(url[k + |a|]);
    m := k + |a| - 6;
    assert url[m..][..6] == url[k..][|a| - 6..|a|] == a[|a| - 6..] == "?surl=";
    assert "?surl=" in SurlQuery.alternatives;
  }

  // ---------------------------------------------------------------------------
  // Terabox URL normalisation
  // ---------------------------------------------------------------------------

  const ShareBase: string := "https://www.terabox.com/s/1"

  /** Leading '1's are dropped from share ids longer than twenty characters only. */
  function CleanSurl(surl: string): (r: string)
    ensures |surl| <= 20 ==> r == surl
    ensures |surl| > 20 ==> IsSuffix(r, surl) && (r == [] || r[0] != '1')
    ensures |surl| > 20 ==> forall k :: 0 <= k < |surl| - |r| ==> surl[k] == '1'
  {
    if |surl| > 20 then LStrip(surl, {'1'}) else surl
  }

  /** The canonical share link for the link's share id, or the link itself when no
      pattern finds an id. */
  function NormalizeTeraboxUrl(url: string): (r: string)
    ensures FirstMatch(url, TeraboxPatterns).None? ==> r == url
    ensures FirstMatch(url, TeraboxPatterns).Some? ==>
      IsPrefix(ShareBase, r) && r[|ShareBase|..] == CleanSurl(FirstMatch(url, TeraboxPatterns).value)
  {
    match FirstMatch(url, TeraboxPatterns)
    case None => url
    case Some(surl) =>
      var r := ShareBase + CleanSurl(surl);
      assert r[..|ShareBase|] == ShareBase;
      r
  }

  /** Cleaning a share id twice is cleaning it once, unless the id was made of '1's only. */
  lemma CleanSurlIsIdempotent(surl: string)
    requires CleanSurl(surl) != ""
    ensures CleanSurl(CleanSurl(surl)) == CleanSurl(surl)
  {
  }

  /** A non-empty tail of an id is an id. */
  lemma IdRunSuffix(id: string, tail: string)
    requires IsIdRun(id) && IsSuffix(tail, id) && tail != []
    ensures IsIdRun(tail)
  {
    forall k | 0 <= k < |tail| ensures IsIdChar(tail[k]) {
      assert tail[k] == id[|id| - |tail| + k];
    }
  }

  /** Extracting the share id from a normalised link gives back the cleaned id: the
      normalised link is recognised, and normalising it again changes nothing. */
  lemma NormalizedUrlKeepsSurl(url: string)
    requires FirstMatch(url, TeraboxPatterns).Some?
    requires CleanSurl(FirstMatch(url, TeraboxPatterns).value) != ""
    ensures FirstMatch(NormalizeTeraboxUrl(url), TeraboxPatterns) ==
            Some(CleanSurl(FirstMatch(url, TeraboxPatterns).value))
  {
    var surl := FirstMatch(url, TeraboxPatterns).value;
    IdRunSuffix(surl, CleanSurl(surl));
    ShareUrlSurl(CleanSurl(surl));
  }

  lemma NormalizeIsIdempotent(url: string)
    requires FirstMatch(url, TeraboxPatterns).Some? ==> CleanSurl(FirstMatch(url, TeraboxPatterns).value) != ""
    ensures NormalizeTeraboxUrl(NormalizeTeraboxUrl(url)) == NormalizeTeraboxUrl(url)
  {
    if FirstMatch(url, TeraboxPatterns).Some? {
      NormalizedUrlKeepsSurl(url);
      CleanSurlIsIdempotent(FirstMatch(url, TeraboxPatterns).value);
    }
  }

  /** The share id of `https://www.terabox.com/s/1<id>` is `<id>`. */
  lemma ShareUrlSurl(id: string)
    requires IsIdRun(id)
    ensures FirstMatch(ShareBase + id, TeraboxPatterns) == Some(id)
  {
    var s := ShareBase + id;
    NoQueryInShareUrl(id);
    ShareLinkInShareUrl(id);
    assert TeraboxPatterns[0] == SurlQuery && TeraboxPatterns[1..][0] == ShareLink;
    assert FirstMatch(s, TeraboxPatterns) == FirstMatch(s, TeraboxPatterns[1..]);
  }

  lemma NoQueryInShareUrl(id: string)
    requires IsIdRun(id)
    ensures Search(ShareBase + id, SurlQuery).None?
  {
    var s := ShareBase + id;
    assert forall k :: 0 <= k < |s| ==> s[k] != '?' && s[k] != '&' by {
      assert forall k :: 0 <= k < |ShareBase| ==> ShareBase[k] != '?' && ShareBase[k] != '&';
      assert forall k :: |ShareBase| <= k < |s| ==> s[k] == id[k - |ShareBase|];
    }
    forall k | 0 <= k <= |s| ensures MatchAt(s, k, SurlQuery).None? {
      forall a | a in SurlQuery.alternatives ensures !IsPrefix(a, s[k..]) {
        assert a[0] == '?' || a[0] == '&';
        if k < |s| {
          assert s[k..][0] == s[k];
        }
      }
    }
  }

  lemma ShareLinkInShareUrl(id: string)
    requires IsIdRun(id)
    ensures Search(ShareBase + id, ShareLink) == Some(id)
  {
    var s := ShareBase + id;
    forall k | 0 <= k < 23 ensures MatchAt(s, k, ShareLink).None? {
      NoShareMatchBefore(id, k);
    }
    ShareMatchAt(id);
    SearchPosIsFirst(s, ShareLink, 23);
    ShareCapture(id);
  }

  lemma ShareMatchAt(id: string)
    requires IsIdRun(id)
    ensures MatchAt(ShareBase + id, 23, ShareLink) == Some(27)
  {
    assert (ShareBase + id)[23..][..3] == "/s/";
  }

  lemma ShareCapture(id: string)
    requires IsIdRun(id)
    ensures Capture(ShareBase + id, 27) == id
  {
    var s := ShareBase + id;
    assert forall j :: 27 <= j < |s| ==> s[j] == id[j - 27];
    assert RunLength(s, 27) == |id|;
    assert s[27..27 + |id|] == id;
  }

  lemma NoShareMatchBefore(id: string, k: nat)
    requires k < 23
    ensures !IsPrefix("/s/", (ShareBase + id)[k..])
  {
    var s := ShareBase + id;
    NoShareMarkerBefore(k);
    var j := if ShareBase[k] != '/' then 0 else if ShareBase[k + 1] != 's' then 1 else 2;
    assert s[k..][..3][j] == ShareBase[k + j] != "/s/"[j];
  }

  lemma NoShareMarkerBefore(k: nat)
    requires k < 23
    ensures !(ShareBase[k] == '/' && ShareBase[k + 1] == 's' && ShareBase[k + 2] == '/')
  {
  }

  // ---------------------------------------------------------------------------
  // Content-Type
  // ---------------------------------------------------------------------------

  const ContentTypeExtensions: map<string, string> :=
    map["video/mp4" := ".mp4", "video/x-matroska" := ".mkv", "video/webm" := ".webm",
        "video/avi" := ".avi", "video/quicktime" := ".mov", "audio/mpeg" := ".mp3",
        "audio/wav" := ".wav", "audio/flac" := ".flac", "image/jpeg" := ".jpg",
        "image/png" := ".png", "image/gif" := ".gif", "application/pdf" := ".pdf",
        "application/zip" := ".zip", "application/vnd.android.package-archive" := ".apk"]

  /** `content_type.split(';')[0]`: the text before the first ';'. */
  function BeforeParams(contentType: string): (r: string)
    ensures IsPrefix(r, contentType)
    ensures ';' !in r
    ensures |r| < |contentType| ==> contentType[|r|] == ';'
  {
    contentType[..FindAnyFrom(contentType, {';'}, 0)]
  }

  /** The media type of a Content-Type value: the part before the first ';', stripped of
      surrounding whitespace and lower-cased. */
  function MediaType(contentType: string): string {
    Lower(Strip(BeforeParams(contentType), Whitespace))
  }

  /** The extension for a Content-Type, or "" for a media type outside the table. */
  function GetExtensionFromContentType(contentType: string): (r: string)
    ensures MediaType(contentType) in ContentTypeExtensions ==> r == ContentTypeExtensions[MediaType(contentType)]
    ensures MediaType(contentType) !in ContentTypeExtensions ==> r == ""
  {
    var mediaType := MediaType(contentType);
    if mediaType in ContentTypeExtensions then ContentTypeExtensions[mediaType] else ""
  }

  /** Parameters after the first ';' do not change the answer. */
  lemma ContentTypeIgnoresParameters(contentType: string, params: string)
    requires ';' !in contentType
    ensures GetExtensionFromContentType(contentType + ";" + params) == GetExtensionFromContentType(contentType)
  {
    MediaTypeIgnoresParameters(contentType, params);
  }

  lemma MediaTypeIgnoresParameters(contentType: string, params: string)
    requires ';' !in contentType
    ensures MediaType(contentType + ";" + params) == MediaType(contentType)
  {
    var full := contentType + ";" + params;
    assert forall k :: 0 <= k < |contentType| ==> full[k] == contentType[k];
    FindAnyFromFirst(full, {';'}, 0, |contentType|);
    FindAnyFromFirst(contentType, {';'}, 0, |contentType|);
    assert BeforeParams(full) == contentType == BeforeParams(contentType);
  }

  /** Whitespace around a media type does not change the answer. */
  lemma ContentTypeIgnoresPadding(pre: string, mediaType: string, post: string)
    requires forall k :: 0 <= k < |pre| ==> pre[k] in Whitespace
    requires forall k :: 0 <= k < |post| ==> post[k] in Whitespace
    requires mediaType != [] && mediaType[0] !in Whitespace && mediaType[|mediaType| - 1] !in Whitespace
    requires ';' !in mediaType
    ensures GetExtensionFromContentType(pre + mediaType + post) == GetExtensionFromContentType(mediaType)
  {
    MediaTypeIgnoresPadding(pre, mediaType, post);
  }

  lemma MediaTypeIgnoresPadding(pre: string, mediaType: string, post: string)
    requires forall k :: 0 <= k < |pre| ==> pre[k] in Whitespace
    requires forall k :: 0 <= k < |post| ==> post[k] in Whitespace
    requires mediaType != [] && mediaType[0] !in Whitespace && mediaType[|mediaType| - 1] !in Whitespace
    requires ';' !in mediaType
    ensures MediaType(pre + mediaType + post) == MediaType(mediaType)
  {
    var full := pre + mediaType + post;
    NoSemicolonInPadded(pre, mediaType, post);
    FindAnyFromFirst(full, {';'}, 0, |full|);
    FindAnyFromFirst(mediaType, {';'}, 0, |mediaType|);
    assert BeforeParams(full) == full && BeforeParams(mediaType) == mediaType;
    StripPadded(pre, mediaType, post, Whitespace);
    StripPadded([], mediaType, [], Whitespace);
    assert [] + mediaType + [] == mediaType;
  }

  lemma NoSemicolonInPadded(pre: string, mediaType: string, post: string)
    requires forall k :: 0 <= k < |pre| ==> pre[k] in Whitespace
    requires forall k :: 0 <= k < |post| ==> post[k] in Whitespace
    requires ';' !in mediaType
    ensures forall k :: 0 <= k < |pre + mediaType + post| ==> (pre + mediaType + post)[k] !in {';'}
  {
    var full := pre + mediaType + post;
    forall k | 0 <= k < |full| ensures full[k] != ';' {
      if k < |pre| {
        assert full[k] == pre[k];
      } else if k < |pre| + |mediaType| {
        assert full[k] == mediaType[k - |pre|];
      } else {
        assert full[k] == post[k - |pre| - |mediaType|];
      }
    }
  }

  /** The media type depends only on the lower-cased Content-Type. */
  lemma MediaTypeOfLower(contentType: string)
    ensures MediaType(Lower(contentType)) == MediaType(contentType)
  {
    var lowered := Lower(contentType);
    var n := |BeforeParams(contentType)|;
    FindAnyFromFirst(lowered, {';'}, 0, n);
    LowerSlice(contentType, 0, n);
    assert lowered[0..n] == lowered[..n] && contentType[0..n] == contentType[..n];
    assert BeforeParams(lowered) == Lower(BeforeParams(contentType));
    StripLower(BeforeParams(contentType), Whitespace);
    LowerIsLower(Strip(BeforeParams(contentType), Whitespace));
  }

  /** The answer ignores case. */
  lemma ContentTypeIgnoresCase(a: string, b: string)
    requires Lower(a) == Lower(b)
    ensures GetExtensionFromContentType(a) == GetExtensionFromContentType(b)
  {
    MediaTypeOfLower(a);
    MediaTypeOfLower(b);
  }

  /** An extension the fix-up rules can install: a dot, one to four characters without a
      dot or a '/', lower case. */
  predicate IsShortExtension(e: string) {
    2 <= |e| <= 5 && e[0] == '.' && '.' !in e[1..] && '/' !in e && IsLowerAscii(e)
  }

  lemma TableExtensionsAreShort(mediaType: string)
    requires mediaType in ContentTypeExtensions
    ensures IsShortExtension(ContentTypeExtensions[mediaType])
  {
    var e := ContentTypeExtensions[mediaType];
    assert |e| <= 5 && DotAndAlnum(e);
    DotAndAlnumShape(e);
  }

  /** A Content-Type gives "" or a short extension that the bot files under a category other
      than "document". */
  lemma ContentTypeGivesKnownExtension(contentType: string)
    ensures var e := GetExtensionFromContentType(contentType);
      e == "" || (IsShortExtension(e) && Helpers.GetFileType(e) != Helpers.Document)
  {
    var mediaType := MediaType(contentType);
    if mediaType in ContentTypeExtensions {
      TableExtensionsAreShort(mediaType);
      TableExtensionsHaveTypes(mediaType);
    }
  }

  lemma TableExtensionsHaveTypes(mediaType: string)
    requires mediaType in ContentTypeExtensions
    ensures Helpers.GetFileType(ContentTypeExtensions[mediaType]) != Helpers.Document
  {
    var e := ContentTypeExtensions[mediaType];
    assert IsLowerAscii(e);
    LowerOfLower(e);
  }

  // ---------------------------------------------------------------------------
  // Magic bytes
  // ---------------------------------------------------------------------------

  newtype byte = b: int | 0 <= b < 256

  /** Python's `h[:n]`. */
  function Take(h: seq<byte>, n: nat): (r: seq<byte>)
    ensures IsPrefix(r, h)
    ensures |r| == if |h| < n then |h| else n
  {
    if |h| <= n then h else h[..n]
  }

  /** Python's `h[i:j]` for `0 <= i <= j`. */
  function Slice(h: seq<byte>, i: nat, j: nat): (r: seq<byte>)
    requires i <= j
    ensures |h| >= j ==> r == h[i..j]
  {
    var lo := if |h| < i then |h| else i;
    var hi := if |h| < j then |h| else j;
    h[lo..hi]
  }

  /** Python's `bytes.lower()`: ASCII letters only. */
  function LowerBytes(h: seq<byte>): (r: seq<byte>)
    ensures |r| == |h|
    ensures forall k :: 0 <= k < |h| ==> r[k] == if 0x41 <= h[k] <= 0x5a then h[k] + 0x20 else h[k]
  {
    seq(|h|, k requires 0 <= k < |h| => if 0x41 <= h[k] <= 0x5a then h[k] + 0x20 else h[k])
  }

  const Ftyp: seq<byte> := [0x66, 0x74, 0x79, 0x70]           // "ftyp"
  const MatroskaMagic: seq<byte> := [0x1a, 0x45, 0xdf, 0xa3]
  const Riff: seq<byte> := [0x52, 0x49, 0x46, 0x46]           // "RIFF"
  const AviTag: seq<byte> := [0x41, 0x56, 0x49, 0x20]         // "AVI "
  const FlvMagic: seq<byte> := [0x46, 0x4c, 0x56]             // "FLV"
  const Id3Magic: seq<byte> := [0x49, 0x44, 0x33]             // "ID3"
  const MpegSync: seq<seq<byte>> := [[0xff, 0xfb], [0xff, 0xfa]]
  const FlacMagic: seq<byte> := [0x66, 0x4c, 0x61, 0x43]      // "fLaC"
  const WaveTag: seq<byte> := [0x57, 0x41, 0x56, 0x45]        // "WAVE"
  const OggMagic: seq<byte> := [0x4f, 0x67, 0x67, 0x53]       // "OggS"
  const JpegMagic: seq<byte> := [0xff, 0xd8]
  const PngMagic: seq<byte> := [0x89, 0x50, 0x4e, 0x47, 0x0d, 0x0a, 0x1a, 0x0a]
  const GifMagic: seq<seq<byte>> :=
    [[0x47, 0x49, 0x46, 0x38, 0x37, 0x61], [0x47, 0x49, 0x46, 0x38, 0x39, 0x61]]  // "GIF87a", "GIF89a"
  const PdfMagic: seq<byte> := [0x25, 0x50, 0x44, 0x46]       // "%PDF"
  const ZipMagic: seq<byte> := [0x50, 0x4b, 0x03, 0x04]       // "PK\x03\x04"
  const RarMagic: seq<byte> := [0x52, 0x61, 0x72, 0x21, 0x1a, 0x07]  // "Rar!\x1a\x07"
  const Doctype: seq<byte> := [0x3c, 0x21, 0x44, 0x4f, 0x43, 0x54, 0x59, 0x50, 0x45]  // "<!DOCTYPE"
  const HtmlTag: seq<byte> := [0x3c, 0x68, 0x74, 0x6d, 0x6c]  // "<html"

  /** Every answer the classifier can give. */
  const DetectableExtensions: seq<string> := SignatureExtensions + [".html"]
  const SignatureExtensions: seq<string> :=
    [".mp4", ".mkv", ".avi", ".flv", ".mp3", ".flac", ".wav", ".ogg",
     ".jpg", ".png", ".gif", ".pdf", ".zip", ".rar"]

  /** `b'ftyp' in header[:12]`: the ISO media box tag near the start. */
  predicate HasFtyp(h: seq<byte>) {
    Contains(Take(h, 12), Ftyp)
  }

  predicate IsRiff(h: seq<byte>, tag: seq<byte>) {
    Take(h, 4) == Riff && Slice(h, 8, 12) == tag
  }

  predicate LooksLikeHtml(h: seq<byte>) {
    Contains(h, Doctype) || Contains(LowerBytes(h), HtmlTag)
  }

  /** The file type read from the first 32 bytes of the file, tested in a fixed order:
      video, audio, image, document signatures, then an HTML page. */
  function DetectFileType(data: seq<byte>): (r: Option<string>)
    ensures r.Some? ==> r.value in DetectableExtensions
    ensures HasFtyp(Take(data, 32)) ==> r == Some(".mp4")
  {
    DetectHeader(Take(data, 32))
  }

  /** The tests of `DetectFileType` on the header `h`: the file signatures first, and
      an HTML page only when none of them matched. */
  function DetectHeader(h: seq<byte>): (r: Option<string>)
    ensures r.Some? ==> r.value in DetectableExtensions
  {
    if Signature(h).Some? then Signature(h)
    else if LooksLikeHtml(h) then Some(".html")
    else None
  }

  /** The file signatures, in the order they are tested. */
  function Signature(h: seq<byte>): (r: Option<string>)
    ensures r.Some? ==> r.value in SignatureExtensions
  {
    if HasFtyp(h) then Some(".mp4")
    else if Take(h, 4) == MatroskaMagic then Some(".mkv")
    else if IsRiff(h, AviTag) then Some(".avi")
    else if Take(h, 3) == FlvMagic then Some(".flv")
    else if Take(h, 3) == Id3Magic || Take(h, 2) in MpegSync then Some(".mp3")
    else if Take(h, 4) == FlacMagic then Some(".flac")
    else if IsRiff(h, WaveTag) then Some(".wav")
    else if Take(h, 4) == OggMagic then Some(".ogg")
    else if Take(h, 2) == JpegMagic then Some(".jpg")
    else if Take(h, 8) == PngMagic then Some(".png")
    else if Take(h, 6) in GifMagic then Some(".gif")
    else if Take(h, 4) == PdfMagic then Some(".pdf")
    else if Take(h, 4) == ZipMagic then Some(".zip")
    else if Take(h, 6) == RarMagic then Some(".rar")
    else None
  }

  /** An AVI header is reported as ".avi" exactly when no "ftyp" tag sits in its first
      twelve bytes; no other header is. */
  lemma AviDetection(data: seq<byte>)
    ensures var h := Take(data, 32);
      DetectFileType(data) == Some(".avi") <==> IsRiff(h, AviTag) && !HasFtyp(h)
  {
    var h := Take(data, 32);
    if IsRiff(h, AviTag) {
      assert Take(h, 4)[0] != MatroskaMagic[0];
    }
  }

  /** A WAVE header is reported as ".wav" exactly when no "ftyp" tag sits in its first
      twelve bytes: none of the tests before it accepts a RIFF header with a WAVE tag. */
  lemma WavDetection(data: seq<byte>)
    ensures var h := Take(data, 32);
      DetectFileType(data) == Some(".wav") <==> IsRiff(h, WaveTag) && !HasFtyp(h)
  {
    var h := Take(data, 32);
    if IsRiff(h, WaveTag) {
      RiffIsNoEarlierSignature(h);
    }
  }

  lemma RiffIsNoEarlierSignature(h: seq<byte>)
    requires IsRiff(h, WaveTag)
    ensures Take(h, 4) != MatroskaMagic && !IsRiff(h, AviTag) && Take(h, 3) != FlvMagic
    ensures Take(h, 3) != Id3Magic && Take(h, 2) !in MpegSync && Take(h, 4) != FlacMagic
  {
    assert Take(h, 3) == Take(h, 4)[..3] && Take(h, 2) == Take(h, 4)[..2];
    assert Slice(h, 8, 12)[0] != AviTag[0];
  }

  /** An HTML page is reported exactly when the header looks like HTML and no file
      signature matched; in particular a header with an "ftyp" tag is never one. */
  lemma HtmlDetection(data: seq<byte>)
    ensures var h := Take(data, 32);
      DetectFileType(data) == Some(".html") <==> LooksLikeHtml(h) && Signature(h).None?
    ensures DetectFileType(data) == Some(".html") ==> !HasFtyp(Take(data, 32))
  {
    HtmlIsNoSignature();
  }

  lemma HtmlIsNoSignature()
    ensures ".html" !in SignatureExtensions
  {
  }

  // ---------------------------------------------------------------------------
  // Validation
  // ---------------------------------------------------------------------------

  const MinDownloadSize: int := 1000

  /** The verdict on a downloaded file, from whether it exists, its size and its bytes. */
  function ValidateDownload(fileExists: bool, size: int, data: seq<byte>): (r: (bool, string))
    ensures r.0 <==> fileExists && size >= MinDownloadSize && DetectFileType(data) != Some(".html")
    ensures r.0 <==> r.1 == "OK"
    ensures !fileExists ==> r.1 == "File does not exist"
    ensures fileExists && size < MinDownloadSize ==> r.1 == "File too small - likely error page"
    ensures fileExists && size >= MinDownloadSize && !r.0 ==> r.1 == "Got HTML error page instead of file"
  {
    if !fileExists then (false, "File does not exist")
    else if size < MinDownloadSize then (false, "File too small - likely error page")
    else if DetectFileType(data) == Some(".html") then (false, "Got HTML error page instead of file")
    else (true, "OK")
  }

  /** A large enough file that starts like an MP4 is always accepted. */
  lemma Mp4DownloadsAreValid(size: int, data: seq<byte>)
    requires size >= MinDownloadSize && HasFtyp(Take(data, 32))
    ensures ValidateDownload(true, size, data) == (true, "OK")
  {
  }

  // ---------------------------------------------------------------------------
  // Extension fixes
  // ---------------------------------------------------------------------------

  /** Before the download: a name without an extension, or with one longer than five
      characters, takes the extension of the Content-Type when the table knows it. */
  function FixMissingExtension(filename: string, contentType: string): (r: string)
    ensures var (name, ext) := SplitExt(filename);
      (1 <= |ext| <= 5 || GetExtensionFromContentType(contentType) == "" ==> r == filename) &&
      ((ext == "" || |ext| > 5) && GetExtensionFromContentType(contentType) != "" ==>
         r == name + GetExtensionFromContentType(contentType))
  {
    var (name, ext) := SplitExt(filename);
    if ext == "" || |ext| > 5 then
      var ctExt := GetExtensionFromContentType(contentType);
      if ctExt != "" then name + ctExt else filename
    else filename
  }

  /** The last path component of the stem is not made of dots only, so `SplitExt` sees an
      extension appended to it. */
  predicate HasProperStem(filename: string) {
    var name := SplitExt(filename).0;
    !AllDots(name[BaseStart(name)..])
  }

  /** After the fix the name carries the Content-Type's extension, and a second fix changes
      nothing. */
  lemma FixMissingExtensionIsIdempotent(filename: string, contentType: string)
    requires HasProperStem(filename)
    ensures var fixed := FixMissingExtension(filename, contentType);
      FixMissingExtension(fixed, contentType) == fixed
  {
    var (name, ext) := SplitExt(filename);
    var ctExt := GetExtensionFromContentType(contentType);
    if (ext == "" || |ext| > 5) && ctExt != "" {
      ContentTypeGivesKnownExtension(contentType);
      SplitExtAppend(name, ctExt);
    }
  }

  /** A name that is only an extension has no stem for `SplitExt`, so the fix is not
      idempotent on it: the empty name becomes the Content-Type's extension, say ".mp4",
      and then ".mp4.mp4". */
  lemma FixMissingExtensionTwiceOnEmptyName(contentType: string)
    requires GetExtensionFromContentType(contentType) != ""
    ensures var e := GetExtensionFromContentType(contentType);
      FixMissingExtension("", contentType) == e && FixMissingExtension(e, contentType) == e + e
    ensures !HasProperStem("")
  {
    TableExtensionsAreShort(MediaType(contentType));
    SplitExtBareExtension(GetExtensionFromContentType(contentType));
  }

  /** After validation: when the bytes were recognised (and are not an HTML page) and the
      lower-cased extension differs, the file is renamed to the stem plus the detected
      extension. */
  function ExtensionAfterDetection(path: string, detected: Option<string>): (r: string)
    ensures detected.None? || detected == Some(".html") ==> r == path
    ensures detected.Some? && Lower(SplitExt(path).1) == detected.value ==> r == path
    ensures detected.Some? && detected.value != ".html" && Lower(SplitExt(path).1) != detected.value ==>
      r == SplitExt(path).0 + detected.value
  {
    if detected.Some? && detected.value != ".html" then
      var current := Lower(SplitExt(path).1);
      if current == "" || current != detected.value then SplitExt(path).0 + detected.value else path
    else path
  }

  /** Every extension the classifier reports has the shape `SplitExt` recognises. */
  lemma DetectableExtensionShape(e: string)
    requires e in DetectableExtensions
    ensures |e| >= 2 && e[0] == '.' && '.' !in e[1..] && '/' !in e && IsLowerAscii(e)
  {
    if e != ".html" {
      assert e in SignatureExtensions;
      var n :| 0 <= n < |SignatureExtensions| && SignatureExtensions[n] == e;
      assert DotAndAlnum(e);
    }
    DotAndAlnumShape(e);
  }

  /** A dot followed only by lower-case letters and digits. */
  predicate DotAndAlnum(e: string) {
    |e| >= 2 && e[0] == '.' && forall k :: 1 <= k < |e| ==> 'a' <= e[k] <= 'z' || '0' <= e[k] <= '9'
  }

  lemma DotAndAlnumShape(e: string)
    requires DotAndAlnum(e)
    ensures |e| >= 2 && e[0] == '.' && '.' !in e[1..] && '/' !in e && IsLowerAscii(e)
  {
    assert forall k :: 0 <= k < |e| - 1 ==> e[1..][k] == e[k + 1];
  }

  /** After the rename the path's extension, lower-cased, is the detected one. */
  lemma DetectionFixesExtension(path: string, data: seq<byte>)
    requires HasProperStem(path)
    requires DetectFileType(data).Some? && DetectFileType(data) != Some(".html")
    ensures Lower(SplitExt(ExtensionAfterDetection(path, DetectFileType(data))).1) == DetectFileType(data).value
  {
    var e := DetectFileType(data).value;
    DetectableExtensionShape(e);
    var (name, ext) := SplitExt(path);
    if Lower(ext) != e {
      SplitExtAppend(name, e);
      LowerOfLower(e);
    }
  }

  // ---------------------------------------------------------------------------
  // Unique file path
  // ---------------------------------------------------------------------------

  /** `f"{base}_{n}{ext}"` with `base, ext = os.path.splitext(path)`. */
  function NumberedPath(path: string, n: nat): string {
    SplitExt(path).0 + "_" + NatToString(n) + SplitExt(path).1
  }

  /** The loop never tries the same name twice. */
  lemma NumberedPathsDiffer(path: string, m: nat, n: nat)
    requires NumberedPath(path, m) == NumberedPath(path, n)
    ensures m == n
  {
    var (base, ext) := SplitExt(path);
    var a, b := NatToString(m), NatToString(n);
    var pa, pb := base + "_" + a + ext, base + "_" + b + ext;
    assert |a| == |b|;
    assert pa[|base| + 1..|base| + 1 + |a|] == a;
    assert pb[|base| + 1..|base| + 1 + |b|] == b;
    NatToStringInjective(m, n);
  }

  /** The length of the longest string of a finite set. */
  ghost function MaxLength(s: set<string>): (r: nat)
    ensures forall x :: x in s ==> |x| <= r
    decreases s
  {
    if s == {} then 0
    else
      var x :| x in s;
      var rest := MaxLength(s - {x});
      if |x| > rest then |x| else rest
  }

  /** The first of `path`, `base_1ext`, `base_2ext`, ... that is not an existing path. */
  method UniqueFilePath(path: string, existing: set<string>) returns (r: string)
    ensures r !in existing
    ensures path !in existing ==> r == path
    ensures path in existing ==>
      (exists n :: 1 <= n && r == NumberedPath(path, n) && NumberedBefore(path, n, existing))
  {
    var (base, ext) := SplitExt(path);
    var counter: nat := 1;
    r := path;
    ghost var bound := Pow10(MaxLength(existing));
    while r in existing
      invariant 1 <= counter
      invariant counter == 1 ==> r == path
      invariant counter > 1 ==> path in existing && r == NumberedPath(path, counter - 1)
      invariant NumberedBefore(path, counter - 1, existing)
      invariant r in existing ==> counter <= bound
      decreases bound - counter
    {
      r := base + "_" + NatToString(counter) + ext;
      assert r == NumberedPath(path, counter);
      counter := counter + 1;
      if r in existing {
        NumberedPathFits(path, counter - 1, existing);
      }
    }
    if path in existing {
      assert NumberedBefore(path, counter - 1, existing);
    }
  }

  /** Every numbered path before the `n`-th exists already. */
  ghost predicate NumberedBefore(path: string, n: nat, existing: set<string>) {
    forall m :: 1 <= m < n ==> NumberedPath(path, m) in existing
  }

  /** A numbered path that exists is no longer than the longest existing path, so its number
      is below ten to that length: the loop stops. */
  lemma NumberedPathFits(path: string, n: nat, existing: set<string>)
    requires NumberedPath(path, n) in existing
    ensures n < Pow10(MaxLength(existing))
  {
    NatToStringBound(n);
    Pow10Monotonic(|NatToString(n)|, MaxLength(existing));
  }

  // ---------------------------------------------------------------------------
  // Terabox folders
  // ---------------------------------------------------------------------------

  const FolderMarker: string := "TERABOX_FOLDER:"

  /** A folder link: "filelist" in it, or a "path=" that is not the root "path=%2f". */
  predicate IsTeraboxFolder(url: string) {
    var lowered := Lower(url);
    Contains(lowered, "filelist") || (Contains(lowered, "path=") && !Contains(lowered, "path=%2f"))
  }

  /** The early answer of `download_terabox`: the marked link for a folder, nothing (go on
      downloading) otherwise. */
  function FolderAnswer(url: string): (r: Option<string>)
    ensures r.Some? <==> IsTeraboxFolder(url)
    ensures r.Some? ==> IsPrefix(FolderMarker, r.value) && r.value[|FolderMarker|..] == url
  {
    if IsTeraboxFolder(url) then
      var marked := FolderMarker + url;
      assert marked[..|FolderMarker|] == FolderMarker;
      Some(marked)
    else None
  }

  /** The folder test ignores case. */
  lemma FolderTestIgnoresCase(url: string)
    ensures IsTeraboxFolder(Lower(url)) == IsTeraboxFolder(url)
  {
    LowerIsLower(url);
  }

  /** A link to the root path ("path=%2F", any case) is not a folder unless it says
      "filelist", although it contains "path=". */
  lemma RootPathIsNoFolder(url: string)
    requires Contains(Lower(url), "path=%2f") && !Contains(Lower(url), "filelist")
    ensures Contains(Lower(url), "path=") && !IsTeraboxFolder(url)
  {
    assert "path=%2f" == "path=" + "%2f";
    ContainsLonger(Lower(url), "path=", "%2f");
  }
}
