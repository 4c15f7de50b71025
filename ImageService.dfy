/**
  The image pipeline's pure parts: extension extraction, content-type detection, the S3 key and
  bucket naming, the temporary-file name as OpenJDK 21's createTempFile builds, normalises and
  checks it, and the control flow of the two upload flows. The HTTP download, the file I/O, the
  image codecs and the S3 client are collaborators whose outcomes are parameters: the download's
  status (None when sending or copying the body throws), the random number in a temporary file
  name, the UUID, the converted WebP file, and a predicate telling whether S3 accepts a put
  request.
 */
module ImageService {
  import opened Wrappers

  /** ImageDownloadException and ImageUploadException; both carry only their error code. */
  datatype ImageError = DownloadFailed | UploadFailed

  datatype ObjectMetadata = ObjectMetadata(contentType: string)

  /** What is handed to the S3 client's putObject. */
  datatype PutObjectRequest = PutObjectRequest(
    bucket: string,
    key: string,
    file: string,
    metadata: Option<ObjectMetadata>)

  /** The object whose URL the upload flows return (bucket and key; the URL's rendering is the S3 client's). */
  datatype S3Location = S3Location(bucket: string, key: string)

  // ----- java.lang.String helpers -----

  /** String.lastIndexOf(char): the last position of c in s, or -1. */
  function LastIndexOf(s: string, c: char): (i: int)
    ensures -1 <= i < |s|
    ensures i == -1 <==> c !in s
    ensures 0 <= i ==> s[i] == c && c !in s[i + 1..]
  {
    if |s| == 0 then -1
    else if s[|s| - 1] == c then |s| - 1
    else
      var i := LastIndexOf(s[..|s| - 1], c);
      assert 0 <= i ==> s[i + 1..] == s[..|s| - 1][i + 1..] + [s[|s| - 1]];
      i
  }

  /** String.indexOf(char): the first position of c in s, or -1. */
  function IndexOf(s: string, c: char): (i: int)
    ensures -1 <= i < |s|
    ensures i == -1 <==> c !in s
    ensures 0 <= i ==> s[i] == c && c !in s[..i]
  {
    if |s| == 0 then -1
    else if s[0] == c then 0
    else
      var j := IndexOf(s[1..], c);
      assert s == [s[0]] + s[1..];
      assert 0 <= j ==> s[..j + 1] == [s[0]] + s[1..][..j];
      if j < 0 then -1 else j + 1
  }

  /** String.endsWith */
  predicate EndsWith(s: string, suffix: string) {
    |suffix| <= |s| && s[|s| - |suffix|..] == suffix
  }

  /** A character absent from a string is absent from each of its endings. */
  lemma EndingHasNoChar(s: string, ending: string, c: char)
    requires EndsWith(s, ending)
    ensures c !in s ==> c !in ending
  {
  }

  // ----- Extensions -----

  /**
    getExtension(File): the file name's suffix from its last '.'. The caller only passes names
    that contain a '.', which is why the source does not guard against lastIndexOf returning -1.
   */
  function GetExtension(fileName: string): (ext: string)
    requires '.' in fileName
    ensures |ext| > 0 && ext[0] == '.' && '.' !in ext[1..]
    ensures EndsWith(fileName, ext)
  {
    fileName[LastIndexOf(fileName, '.')..]
  }

  /**
    getExtensionFromUrl as written: the URL's suffix from its last '.', cut just before the first
    '?' of that suffix; ".png" when the only '.' is at position 0 or there is none.
   */
  function GetExtensionFromUrl(url: string): (ext: string)
    ensures |ext| > 0 && ext[0] == '.' && '.' !in ext[1..] && '?' !in ext
    ensures (forall i :: 0 < i < |url| ==> url[i] != '.') ==> ext == ".png"
    ensures (exists i :: 0 < i < |url| && url[i] == '.') ==>
      var tail := url[LastIndexOf(url, '.')..];
      ext <= tail && (|ext| == |tail| || tail[|ext|] == '?')
  {
    var idx := LastIndexOf(url, '.');
    if idx > 0 then
      var ext := url[idx..];
      assert ext[1..] == url[idx + 1..];
      var q := IndexOf(ext, '?');
      if q > 0 then ext[..q] else ext
    else ".png"
  }

  /** The URL without its query: everything before the first '?'. */
  function BeforeQuery(url: string): (path: string)
    ensures '?' !in path
  {
    var q := IndexOf(url, '?');
    if q >= 0 then url[..q] else url
  }

  /** The text before the query is a prefix of the URL that is all of it or stops at a '?'. */
  lemma BeforeQueryIsPrefix(url: string)
    ensures var path := BeforeQuery(url);
      path <= url && (|path| == |url| || url[|path|] == '?')
  {
  }

  /** The text before the first ':' is followed by "//": a scheme and a host come first. */
  predicate HasHost(address: string) {
    var c := IndexOf(address, ':');
    0 <= c && c + 2 < |address| && address[c + 1] == '/' && address[c + 2] == '/'
  }

  /** Where the host begins: just after the "//" that follows the scheme. */
  function HostStart(address: string): (h: nat)
    requires HasHost(address)
    ensures 3 <= h <= |address| && address[h - 3] == ':' && address[h - 2] == '/' && address[h - 1] == '/'
  {
    IndexOf(address, ':') + 3
  }

  /** The part of a host-first text from its first '/'; nothing when it has none. */
  function FromFirstSlash(rest: string): (path: string)
    ensures EndsWith(rest, path) && '/' !in rest[..|rest| - |path|]
    ensures path == [] || path[0] == '/'
  {
    var s := IndexOf(rest, '/');
    if s >= 0 then rest[s..] else []
  }

  /**
    The path of a URL without its query: the scheme and the host up to the next '/' are dropped
    (nothing is left when no '/' follows the host); a URL without a host is all path.
   */
  function UrlPath(address: string): (path: string)
    ensures EndsWith(address, path)
    ensures !HasHost(address) ==> path == address
    ensures HasHost(address) ==> path == [] || path[0] == '/'
  {
    if HasHost(address) then
      var h := HostStart(address);
      var path := FromFirstSlash(address[h..]);
      EndingOfTail(address, h, path);
      path
    else address
  }

  /** Between the start of the host and the path there is no '/': the path begins at the host's end. */
  lemma UrlPathSkipsHost(address: string)
    requires HasHost(address)
    ensures var path := UrlPath(address);
      && |path| <= |address| - HostStart(address)
      && '/' !in address[HostStart(address)..|address| - |path|]
  {
    var h := HostStart(address);
    var path := FromFirstSlash(address[h..]);
    assert UrlPath(address) == path;
    EndingOfTail(address, h, path);
  }

  /** An ending of a tail of s is an ending of s, and what precedes it in the tail is the same slice of s. */
  lemma EndingOfTail(s: string, h: nat, ending: string)
    requires h <= |s| && EndsWith(s[h..], ending)
    ensures EndsWith(s, ending) && |ending| <= |s| - h
    ensures s[h..|s| - |ending|] == s[h..][..|s[h..]| - |ending|]
  {
    assert s[|s| - |ending|..] == s[h..][|s[h..]| - |ending|..];
  }

  /**
    The last segment of the URL's path: the ending of the path (the part before the first '?',
    without scheme and host) that follows its last '/' (all of it when it has no '/').
   */
  function LastPathSegment(url: string): (segment: string)
    ensures '?' !in segment && '/' !in segment
  {
    SegmentQueryFree(url);
    AfterLastSlash(UrlPath(BeforeQuery(url)))
  }

  /** The query is cut before the path is taken, so no '?' reaches the last segment. */
  lemma SegmentQueryFree(url: string)
    ensures '?' !in AfterLastSlash(UrlPath(BeforeQuery(url)))
  {
    var address := BeforeQuery(url);
    EndingHasNoChar(address, UrlPath(address), '?');
  }

  /** The part of a path after its last '/', all of it when it has none. */
  function AfterLastSlash(path: string): (segment: string)
    ensures '/' !in segment && EndsWith(path, segment)
    ensures |segment| == |path| || path[|path| - |segment| - 1] == '/'
    ensures '?' !in path ==> '?' !in segment
  {
    var slash := LastIndexOf(path, '/');
    var segment := path[slash + 1..];
    assert segment == path[|path| - |segment|..];
    EndingHasNoChar(path, segment, '?');
    segment
  }

  /**
    The corrected extension rule used by the download (see Findings in README.md): the suffix of
    the last path segment from its last '.', and ".png" when that segment has no '.' after its
    first character. The scheme, the host and the query no longer contribute.
   */
  function GetExtensionFromPath(url: string): (ext: string)
    ensures |ext| > 0 && ext[0] == '.' && '.' !in ext[1..] && '?' !in ext && '/' !in ext
    ensures var segment := LastPathSegment(url);
      var dot := LastIndexOf(segment, '.');
      if dot > 0 then ext == segment[dot..] else ext == ".png"
  {
    SegmentExtension(LastPathSegment(url))
  }

  /**
    The extension of one path segment: its suffix from its last '.', or ".png" when no '.'
    follows its first character. A segment free of '/' and '?' gives an extension free of both.
   */
  function SegmentExtension(segment: string): (ext: string)
    ensures |ext| > 0 && ext[0] == '.' && '.' !in ext[1..]
    ensures '?' !in segment && '/' !in segment ==> '?' !in ext && '/' !in ext
    ensures var dot := LastIndexOf(segment, '.');
      if dot > 0 then ext == segment[dot..] else ext == ".png"
  {
    var idx := LastIndexOf(segment, '.');
    if idx > 0 then
      var ext := segment[idx..];
      assert ext == segment[|segment| - |ext|..];
      EndingHasNoChar(segment, ext, '?');
      EndingHasNoChar(segment, ext, '/');
      ext
    else ".png"
  }

  // ----- Content types -----

  /** The k-th character of an ending sits at the matching position of the string. */
  lemma EndingChar(s: string, ending: string, k: int)
    ensures EndsWith(s, ending) && 0 <= k < |ending| ==> s[|s| - |ending| + k] == ending[k]
  {
    if EndsWith(s, ending) && 0 <= k < |ending| {
      assert s[|s| - |ending|..][k] == ending[k];
    }
  }

  /** No key ends with two of ".png", ".jpg", ".jpeg" and ".webp". */
  lemma EndingsExclusive(key: string)
    ensures EndsWith(key, ".png") ==> !EndsWith(key, ".jpg") && !EndsWith(key, ".jpeg") && !EndsWith(key, ".webp")
    ensures EndsWith(key, ".jpg") || EndsWith(key, ".jpeg") ==> !EndsWith(key, ".webp")
  {
    EndingChar(key, ".png", 1);
    EndingChar(key, ".jpg", 1);
    EndingChar(key, ".png", 2);
    EndingChar(key, ".jpeg", 3);
    EndingChar(key, ".png", 3);
    EndingChar(key, ".jpg", 3);
    EndingChar(key, ".jpeg", 4);
    EndingChar(key, ".webp", 4);
  }

  /**
    detectContentType: the content type for a key from its ending. The endings are mutually
    exclusive, so the order of the checks does not matter and each content type is reported
    exactly for its endings.
   */
  function DetectContentType(key: string): (contentType: string)
    ensures contentType == "image/png" <==> EndsWith(key, ".png")
    ensures contentType == "image/jpeg" <==> EndsWith(key, ".jpg") || EndsWith(key, ".jpeg")
    ensures contentType == "image/webp" <==> EndsWith(key, ".webp")
    ensures contentType == "application/octet-stream" <==>
      !EndsWith(key, ".png") && !EndsWith(key, ".jpg") && !EndsWith(key, ".jpeg") && !EndsWith(key, ".webp")
  {
    EndingsExclusive(key);
    if EndsWith(key, ".png") then "image/png"
    else if EndsWith(key, ".jpg") || EndsWith(key, ".jpeg") then "image/jpeg"
    else if EndsWith(key, ".webp") then "image/webp"
    else "application/octet-stream"
  }

  // ----- Keys and buckets -----

  /** File.createTempFile(prefix, suffix): the prefix, a random part, and the suffix. */
  function TempFileName(prefix: string, random: string, suffix: string): (name: string)
    ensures prefix <= name && EndsWith(name, suffix)
    ensures |name| == |prefix| + |random| + |suffix| && name[|prefix|..|name| - |suffix|] == random
  {
    assert (prefix + random + suffix)[|prefix + random|..] == suffix;
    prefix + random + suffix
  }

  /**
    Long.toUnsignedString: the decimal digits of the random number createTempFile puts between
    the prefix and the suffix.
   */
  function UnsignedDecimal(n: nat): (s: string)
    ensures |s| > 0 && forall c :: c in s ==> '0' <= c <= '9'
  {
    var digit := ['0' + (n % 10) as char];
    if n < 10 then digit else UnsignedDecimal(n / 10) + digit
  }

  /** The name with every trailing '/' removed. */
  function WithoutTrailingSlashes(s: string): (t: string)
    ensures t <= s && (t == [] || t[|t| - 1] != '/')
    ensures forall i :: |t| <= i < |s| ==> s[i] == '/'
  {
    if |s| > 0 && s[|s| - 1] == '/' then WithoutTrailingSlashes(s[..|s| - 1]) else s
  }

  /** Every run of '/' shortened to one '/'; the other characters and the last one stay. */
  function CollapseSlashes(s: string): (t: string)
    ensures forall c :: c in t <==> c in s
    ensures '/' !in s ==> t == s
    ensures |s| > 0 ==> |t| > 0 && t[|t| - 1] == s[|s| - 1]
  {
    if |s| <= 1 then s
    else
      var init := CollapseSlashes(s[..|s| - 1]);
      assert s == s[..|s| - 1] + [s[|s| - 1]];
      if s[|s| - 2] == '/' && s[|s| - 1] == '/' then
        assert s[|s| - 1] == s[..|s| - 1][|s| - 2];
        init
      else
        init + [s[|s| - 1]]
  }

  /** No two '/' stand next to each other. */
  predicate NoDoubleSlash(t: string) {
    forall i :: 0 < i < |t| ==> t[i - 1] != '/' || t[i] != '/'
  }

  /** After collapsing, no two '/' stand next to each other. */
  lemma {:induction false} CollapsedHasNoDoubleSlash(s: string)
    ensures NoDoubleSlash(CollapseSlashes(s))
    decreases |s|
  {
    if |s| > 1 {
      var init := CollapseSlashes(s[..|s| - 1]);
      CollapsedHasNoDoubleSlash(s[..|s| - 1]);
      assert s[..|s| - 1][|s| - 2] == s[|s| - 2];
      if s[|s| - 2] != '/' || s[|s| - 1] != '/' {
        var t := init + [s[|s| - 1]];
        assert CollapseSlashes(s) == t;
        assert forall i :: 0 <= i < |init| ==> t[i] == init[i];
      } else {
        assert CollapseSlashes(s) == init;
      }
    }
  }

  /**
    The Unix file system's normalisation, which OpenJDK 21's createTempFile applies to the name it
    generates: the trailing '/' characters go, each run of '/' becomes one, and a name of '/'
    characters only becomes "/".
   */
  function NormalizeName(s: string): (t: string)
    ensures t == [] <==> s == []
    ensures '/' !in s ==> t == s
    ensures '\0' in t <==> '\0' in s
    ensures var u := WithoutTrailingSlashes(s);
      && (s != [] ==> ('/' in t <==> u == [] || '/' in u))
      && (u != [] && '/' !in u ==> t == u)
  {
    var u := WithoutTrailingSlashes(s);
    OnlySlashesCut(s, u, '\0');
    if u == [] && s != [] then "/" else CollapseSlashes(u)
  }

  /**
    The normalised name keeps every character other than '/', has no two '/' in a row, and ends
    in '/' only when it is "/".
   */
  lemma NormalizedShape(s: string)
    ensures var t := NormalizeName(s);
      && (forall c :: c != '/' ==> (c in t <==> c in s))
      && NoDoubleSlash(t)
      && (|t| > 1 ==> t[|t| - 1] != '/')
  {
    var u := WithoutTrailingSlashes(s);
    forall c | c != '/'
      ensures c in u <==> c in s
    {
      OnlySlashesCut(s, u, c);
    }
    if u != [] || s == [] {
      assert NormalizeName(s) == CollapseSlashes(u);
      CollapsedHasNoDoubleSlash(u);
    }
  }

  /** Cutting '/' characters off the end of a string keeps its other characters. */
  lemma OnlySlashesCut(s: string, u: string, c: char)
    requires u <= s && forall i :: |u| <= i < |s| ==> s[i] == '/'
    requires c != '/'
    ensures c in u <==> c in s
  {
    if c in s {
      var i :| 0 <= i < |s| && s[i] == c;
      assert u[i] == c;
    }
  }

  /**
    Whether OpenJDK 21's createTempFile accepts a generated name: once normalised, the name must be
    the last component of the file's path (non-empty, no '/') and hold no NUL character; otherwise
    it throws an IOException.
   */
  predicate AcceptedTempName(name: string) {
    var n := NormalizeName(name);
    n != [] && '/' !in n && '\0' !in n
  }

  /** The key of the original upload in the Lambda flow: under "dalle/", ending with the extension. */
  function OriginalKey(uuid: string, ext: string): (key: string)
    ensures "dalle/" <= key && EndsWith(key, ext)
    ensures |key| == |"dalle/"| + |uuid| + |ext| && key[|"dalle/"|..|key| - |ext|] == uuid
  {
    assert ("dalle/" + uuid + ext)[|"dalle/" + uuid|..] == ext;
    "dalle/" + uuid + ext
  }

  /** Where the resize Lambda writes its result: the "-resize" bucket, the original key behind "resized-". */
  function ResizedLocation(bucket: string, originalKey: string): (loc: S3Location)
    ensures bucket <= loc.bucket && loc.bucket[|bucket|..] == "-resize"
    ensures "resized-" <= loc.key && loc.key[|"resized-"|..] == originalKey
  {
    S3Location(bucket + "-resize", "resized-" + originalKey)
  }

  /** The key of the WebP thumbnail in the Thumbnailator flow: under "dalle-thumb/", ending with ".webp". */
  function ThumbnailKey(uuid: string): (key: string)
    ensures "dalle-thumb/" <= key && EndsWith(key, ".webp")
    ensures |key| == |"dalle-thumb/"| + |uuid| + 5 && key[|"dalle-thumb/"|..|key| - 5] == uuid
  {
    assert ("dalle-thumb/" + uuid + ".webp")[|"dalle-thumb/" + uuid|..] == ".webp";
    "dalle-thumb/" + uuid + ".webp"
  }

  /** A temporary file created with an extension gives that extension back. */
  lemma ExtensionOfTempFile(prefix: string, random: string, ext: string)
    requires |ext| > 0 && ext[0] == '.' && '.' !in ext[1..]
    ensures '.' in TempFileName(prefix, random, ext)
    ensures GetExtension(TempFileName(prefix, random, ext)) == ext
  {
    var name := TempFileName(prefix, random, ext);
    var dot := |prefix + random|;
    assert name[dot] == '.';
    assert name[dot + 1..] == ext[1..];
  }

  /** The thumbnail key is classified as WebP. */
  lemma ThumbnailKeyIsWebp(uuid: string)
    ensures DetectContentType(ThumbnailKey(uuid)) == "image/webp"
  {
    var key := ThumbnailKey(uuid);
    assert key[|key| - 5..] == ".webp";
  }

  /** Two endings of one string: the shorter is an ending of the longer. */
  lemma EndingOfEnding(s: string, short: string, long: string)
    requires EndsWith(s, short) && EndsWith(s, long) && |short| <= |long|
    ensures EndsWith(long, short)
  {
    assert s[|s| - |short|..] == long[|long| - |short|..];
  }

  /**
    A string that starts with '.' and follows any prefix ends with a '.'-initial ending (one with
    no other '.') exactly when the string itself does.
   */
  lemma EndsWithAfterPrefix(prefix: string, ext: string, ending: string)
    requires |ext| > 0 && ext[0] == '.'
    requires |ending| > 0 && '.' !in ending[1..]
    ensures EndsWith(prefix + ext, ending) <==> EndsWith(ext, ending)
  {
    var s := prefix + ext;
    if |ending| <= |ext| {
      assert s[|s| - |ending|..] == ext[|ext| - |ending|..];
    } else if EndsWith(s, ending) {
      assert EndsWith(s, ext);
      EndingOfEnding(s, ext, ending);
    }
  }

  /** An original key in the Lambda flow gets the content type of its extension. */
  lemma OriginalKeyContentType(uuid: string, ext: string)
    requires |ext| > 0 && ext[0] == '.'
    ensures DetectContentType(OriginalKey(uuid, ext)) == DetectContentType(ext)
  {
    var prefix := "dalle/" + uuid;
    assert OriginalKey(uuid, ext) == prefix + ext;
    assert ".png"[1..] == "png" && ".jpg"[1..] == "jpg" && ".jpeg"[1..] == "jpeg" && ".webp"[1..] == "webp";
    EndsWithAfterPrefix(prefix, ext, ".png");
    EndsWithAfterPrefix(prefix, ext, ".jpg");
    EndsWithAfterPrefix(prefix, ext, ".jpeg");
    EndsWithAfterPrefix(prefix, ext, ".webp");
  }

  // ----- The upload flows -----

  /** The download succeeds: a 2xx status, and a temporary-file name createTempFile accepts. */
  predicate DownloadSucceeds(imageUrl: string, status: Option<int>, random: nat) {
    status.Some? && 200 <= status.value < 300
    && AcceptedTempName(TempFileName("dalle-", UnsignedDecimal(random), GetExtensionFromUrl(imageUrl)))
  }

  /**
    The random part createTempFile puts in a name is a decimal number, so whether the name is
    accepted depends on the extension alone, and an accepted name loses only the trailing '/'
    characters of the extension to the normalisation.
   */
  lemma AcceptedTempNameOfExtension(random: string, ext: string)
    requires forall c :: c in random ==> '0' <= c <= '9'
    ensures var name := TempFileName("dalle-", random, ext);
      && (AcceptedTempName(name) <==> '/' !in WithoutTrailingSlashes(ext) && '\0' !in ext)
      && (AcceptedTempName(name) ==>
            NormalizeName(name) == TempFileName("dalle-", random, WithoutTrailingSlashes(ext)))
  {
    var a := "dalle-" + random;
    assert TempFileName("dalle-", random, ext) == a + ext;
    assert TempFileName("dalle-", random, WithoutTrailingSlashes(ext)) == a + WithoutTrailingSlashes(ext);
    DecimalNamePrefix(random);
    AcceptedAfterPrefix(a, ext);
  }

  /** "dalle-" and a decimal number hold no '/' or NUL and do not end in '/'. */
  lemma DecimalNamePrefix(random: string)
    requires forall c :: c in random ==> '0' <= c <= '9'
    ensures var a := "dalle-" + random;
      a != [] && a[|a| - 1] != '/' && '/' !in a && '\0' !in a
  {
    var a := "dalle-" + random;
    assert a[|a| - 1] == '-' || a[|a| - 1] in random;
    InConcat("dalle-", random, '/');
    InConcat("dalle-", random, '\0');
  }

  /**
    Behind a text without '/' or NUL, a name is accepted exactly when its ending keeps no '/'
    before its trailing ones and holds no NUL, and is then normalised by cutting those.
   */
  lemma AcceptedAfterPrefix(a: string, b: string)
    requires a != [] && a[|a| - 1] != '/' && '/' !in a && '\0' !in a
    ensures AcceptedTempName(a + b) <==> '/' !in WithoutTrailingSlashes(b) && '\0' !in b
    ensures AcceptedTempName(a + b) ==> NormalizeName(a + b) == a + WithoutTrailingSlashes(b)
  {
    TrailingSlashesAfter(a, b);
    InConcat(a, WithoutTrailingSlashes(b), '/');
    InConcat(a, b, '\0');
  }

  /** A character occurs in a + b exactly when it occurs in a or in b. */
  lemma InConcat(a: string, b: string, c: char)
    ensures c in a + b <==> c in a || c in b
  {
    if c in a + b {
      var i :| 0 <= i < |a + b| && (a + b)[i] == c;
      if i >= |a| {
        assert b[i - |a|] == c;
      }
    }
  }

  /** Cutting the trailing '/' characters of a + b leaves a alone when a does not end in '/'. */
  lemma {:induction false} TrailingSlashesAfter(a: string, b: string)
    requires a != [] && a[|a| - 1] != '/'
    ensures WithoutTrailingSlashes(a + b) == a + WithoutTrailingSlashes(b)
    decreases |b|
  {
    if |b| > 0 && b[|b| - 1] == '/' {
      assert (a + b)[..|a + b| - 1] == a + b[..|b| - 1];
      TrailingSlashesAfter(a, b[..|b| - 1]);
    } else {
      assert b == [] ==> a + b == a;
    }
  }

  /** An extension keeps its shape when its trailing '/' characters are cut. */
  lemma CutExtension(ext: string)
    requires |ext| > 0 && ext[0] == '.' && '.' !in ext[1..]
    ensures var e := WithoutTrailingSlashes(ext);
      |e| > 0 && e[0] == '.' && '.' !in e[1..]
  {
    var e := WithoutTrailingSlashes(ext);
    assert e[1..] <= ext[1..];
  }

  /** An accepted name from an extension of getExtensionFromUrl's shape keeps the cut extension. */
  lemma AcceptedFileName(random: string, ext: string)
    requires forall c :: c in random ==> '0' <= c <= '9'
    requires |ext| > 0 && ext[0] == '.' && '.' !in ext[1..]
    requires '/' !in WithoutTrailingSlashes(ext) && '\0' !in ext
    ensures var file := TempFileName("dalle-", random, WithoutTrailingSlashes(ext));
      && NormalizeName(TempFileName("dalle-", random, ext)) == file
      && '.' in file && GetExtension(file) == WithoutTrailingSlashes(ext)
  {
    AcceptedTempNameOfExtension(random, ext);
    CutExtension(ext);
    ExtensionOfTempFile("dalle-", random, WithoutTrailingSlashes(ext));
  }

  /**
    downloadImage: a status in [200, 300) creates a temporary file named "dalle-", the random
    number and the extension getExtensionFromUrl gives, as createTempFile normalises that name;
    createTempFile rejects a name it cannot use, and that failure, any other status, or a failure
    to send all raise ImageDownloadException.
   */
  function DownloadImage(imageUrl: string, status: Option<int>, random: nat): (r: Result<string, ImageError>)
    ensures r.Success? <==> DownloadSucceeds(imageUrl, status, random)
    ensures r.Failure? ==> r.error == DownloadFailed
    ensures r.Success? ==>
      var ext := WithoutTrailingSlashes(GetExtensionFromUrl(imageUrl));
      && r.value == TempFileName("dalle-", UnsignedDecimal(random), ext)
      && '.' in r.value && GetExtension(r.value) == ext
  {
    match status
    case None => Failure(DownloadFailed)
    case Some(code) =>
      if 200 <= code < 300 then
        var ext := GetExtensionFromUrl(imageUrl);
        var name := TempFileName("dalle-", UnsignedDecimal(random), ext);
        if AcceptedTempName(name) then
          AcceptedTempNameOfExtension(UnsignedDecimal(random), ext);
          AcceptedFileName(UnsignedDecimal(random), ext);
          Success(NormalizeName(name))
        else
          Failure(DownloadFailed)
      else Failure(DownloadFailed)
  }

  /**
    A trailing '/' in the URL reaches the extension as written, and the normalisation of the
    temporary-file name drops it again: the download succeeds with a ".png" file.
   */
  lemma TrailingSlashDropped(random: nat)
    ensures GetExtensionFromUrl("http://x.com/a.png/") == ".png/"
    ensures DownloadImage("http://x.com/a.png/", Some(200), random)
      == Success(TempFileName("dalle-", UnsignedDecimal(random), ".png"))
  {
    SlashEndedExtension();
    SlashCut();
    DownloadOfExtension("http://x.com/a.png/", random, ".png/");
  }

  /** As written, the extension of "http://x.com/a.png/" keeps the trailing '/'. */
  lemma SlashEndedExtension()
    ensures GetExtensionFromUrl("http://x.com/a.png/") == ".png/"
  {
    var url := "http://x.com/a.png/";
    assert url[15..] == "png/" && url[14..] == ".png/";
    LastIndexOfAt(url, '.', 14);
    assert '?' !in url[14..];
  }

  /** The normalisation cuts ".png/" to ".png". */
  lemma SlashCut()
    ensures WithoutTrailingSlashes(".png/") == ".png"
  {
    assert ".png/"[..4] == ".png";
  }

  /** A 2xx download of a URL whose extension keeps no '/' once its trailing ones go succeeds. */
  lemma DownloadOfExtension(imageUrl: string, random: nat, ext: string)
    requires GetExtensionFromUrl(imageUrl) == ext
    requires '/' !in WithoutTrailingSlashes(ext) && '\0' !in ext
    ensures DownloadImage(imageUrl, Some(200), random)
      == Success(TempFileName("dalle-", UnsignedDecimal(random), WithoutTrailingSlashes(ext)))
  {
    AcceptedTempNameOfExtension(UnsignedDecimal(random), ext);
  }

  /** The put request uploadFile builds as written: the metadata it prepares is not attached. */
  function PutRequestAsWritten(bucket: string, key: string, file: string): (req: PutObjectRequest)
    ensures req.bucket == bucket && req.key == key && req.file == file
    ensures req.metadata.None?
  {
    PutObjectRequest(bucket, key, file, None)
  }

  /** The put request uploadFile evidently means to build: the metadata carries the key's content type. */
  function PutRequest(bucket: string, key: string, file: string): (req: PutObjectRequest)
    ensures req.bucket == bucket && req.key == key && req.file == file
    ensures req.metadata == Some(ObjectMetadata(DetectContentType(key)))
  {
    PutObjectRequest(bucket, key, file, Some(ObjectMetadata(DetectContentType(key))))
  }

  /**
    uploadFile: hands S3 the request as line 110 builds it (without the prepared metadata); a
    rejected put raises ImageUploadException.
   */
  function UploadFile(bucket: string, key: string, file: string, s3Accepts: PutObjectRequest -> bool)
    : (r: Result<PutObjectRequest, ImageError>)
    ensures r.Success? <==> s3Accepts(PutRequestAsWritten(bucket, key, file))
    ensures r.Success? ==> r.value == PutRequestAsWritten(bucket, key, file) && r.value.metadata.None?
    ensures r.Failure? ==> r.error == UploadFailed
  {
    var req := PutRequestAsWritten(bucket, key, file);
    if s3Accepts(req) then Success(req) else Failure(UploadFailed)
  }

  /**
    uploadWithLambda: download, upload the original under "dalle/" + uuid + the temporary file's
    extension, and return the location the resize Lambda writes to ("resized-" + that key, in
    bucket + "-resize").
   */
  function UploadWithLambda(imageUrl: string, bucket: string, uuid: string,
                            status: Option<int>, random: nat, s3Accepts: PutObjectRequest -> bool)
    : (r: Result<S3Location, ImageError>)
    ensures !DownloadSucceeds(imageUrl, status, random) ==> r == Failure(DownloadFailed)
    ensures DownloadSucceeds(imageUrl, status, random) ==>
      var ext := WithoutTrailingSlashes(GetExtensionFromUrl(imageUrl));
      var originalKey := "dalle/" + uuid + ext;
      var file := TempFileName("dalle-", UnsignedDecimal(random), ext);
      && (r.Success? <==> s3Accepts(PutRequestAsWritten(bucket, originalKey, file)))
      && (r.Success? ==> r.value == S3Location(bucket + "-resize", "resized-" + originalKey))
      && (r.Failure? ==> r.error == UploadFailed)
  {
    match DownloadImage(imageUrl, status, random)
    case Failure(e) => Failure(e)
    case Success(file) =>
      var originalKey := OriginalKey(uuid, GetExtension(file));
      match UploadFile(bucket, originalKey, file, s3Accepts)
      case Failure(e) => Failure(e)
      case Success(_) => Success(ResizedLocation(bucket, originalKey))
  }

  /**
    uploadWithThumbnailator: download (its failure propagates), then resize and convert to WebP
    (`webpFile` is the converted file, None when that step throws), upload under the thumbnail
    key, and return that object's location. Any failure after the download is ImageUploadException.
   */
  function UploadWithThumbnailator(imageUrl: string, bucket: string, uuid: string,
                                   status: Option<int>, random: nat, webpFile: Option<string>,
                                   s3Accepts: PutObjectRequest -> bool)
    : (r: Result<S3Location, ImageError>)
    ensures !DownloadSucceeds(imageUrl, status, random) ==> r == Failure(DownloadFailed)
    ensures DownloadSucceeds(imageUrl, status, random) ==>
      && (r.Success? <==> webpFile.Some? && s3Accepts(PutRequestAsWritten(bucket, ThumbnailKey(uuid), webpFile.value)))
      && (r.Success? ==> r.value == S3Location(bucket, ThumbnailKey(uuid)))
      && (r.Failure? ==> r.error == UploadFailed)
  {
    match DownloadImage(imageUrl, status, random)
    case Failure(e) => Failure(e)
    case Success(_) =>
      match webpFile
      case None => Failure(UploadFailed)
      case Some(file) =>
        var key := ThumbnailKey(uuid);
        match UploadFile(bucket, key, file, s3Accepts)
        case Failure(_) => Failure(UploadFailed)
        case Success(_) => Success(S3Location(bucket, key))
  }

  // ----- Findings -----

  lemma IndexOfAt(s: string, c: char, i: int)
    requires 0 <= i < |s| && s[i] == c && c !in s[..i]
    ensures IndexOf(s, c) == i
  {
  }

  /** The path of scheme://host/path is /path, and nothing when the host ends the URL. */
  lemma UrlPathAfterHost(scheme: string, host: string, path: string)
    requires ':' !in scheme && '/' !in host
    requires path == [] || path[0] == '/'
    ensures UrlPath(scheme + "://" + host + path) == path
  {
    var url := scheme + "://" + host + path;
    var h := |scheme| + 3;
    assert url[..|scheme|] == scheme;
    IndexOfAt(url, ':', |scheme|);
    assert url[|scheme| + 1] == '/' && url[|scheme| + 2] == '/';
    assert HasHost(url) && HostStart(url) == h;
    var rest := url[h..];
    assert rest == host + path;
    if path != [] {
      assert rest[..|host|] == host;
      IndexOfAt(rest, '/', |host|);
    } else {
      assert rest == host;
    }
  }

  lemma LastIndexOfAt(s: string, c: char, i: int)
    requires 0 <= i < |s| && s[i] == c && c !in s[i + 1..]
    ensures LastIndexOf(s, c) == i
  {
  }

  /** A URL without '?' has no query to cut. */
  lemma BeforeQueryOfQueryFree(url: string)
    requires '?' !in url
    ensures BeforeQuery(url) == url
  {
  }

  /** The last segment of scheme://host/segment, for a URL without a query, is the segment. */
  lemma SegmentAfterHost(scheme: string, host: string, segment: string)
    requires ':' !in scheme && '/' !in host && '/' !in segment
    requires '?' !in scheme && '?' !in host && '?' !in segment
    ensures LastPathSegment(scheme + "://" + host + "/" + segment) == segment
  {
    var path := "/" + segment;
    var url := scheme + "://" + host + path;
    assert url == scheme + "://" + host + "/" + segment;
    QueryFreeUrl(scheme, host, path);
    UrlPathAfterHost(scheme, host, path);
    SegmentOfSlashed(segment);
  }

  /** A URL assembled from query-free parts has no query to cut. */
  lemma QueryFreeUrl(scheme: string, host: string, path: string)
    requires '?' !in scheme && '?' !in host && '?' !in path
    ensures BeforeQuery(scheme + "://" + host + path) == scheme + "://" + host + path
  {
    var url := scheme + "://" + host + path;
    assert forall c :: c in url ==> c in scheme || c in "://" || c in host || c in path;
    BeforeQueryOfQueryFree(url);
  }

  /** The text after the only '/' of "/" + segment is the segment. */
  lemma SegmentOfSlashed(segment: string)
    requires '/' !in segment
    ensures AfterLastSlash("/" + segment) == segment
  {
    assert ("/" + segment)[1..] == segment;
    LastIndexOfAt("/" + segment, '/', 0);
  }

  /** The corrected rule ignores the host: a URL whose last segment has no '.' gets ".png". */
  lemma PathRuleIgnoresHost(scheme: string, host: string, segment: string)
    requires ':' !in scheme && '/' !in host && '/' !in segment
    requires '?' !in scheme && '?' !in host && '?' !in segment
    requires '.' !in segment
    ensures GetExtensionFromPath(scheme + "://" + host + "/" + segment) == ".png"
  {
    SegmentAfterHost(scheme, host, segment);
  }

  /** The corrected rule gives ".png" for a URL that has a host and no path. */
  lemma PathRuleOfHostOnly(scheme: string, host: string)
    requires ':' !in scheme && '/' !in host
    requires '?' !in scheme && '?' !in host
    ensures GetExtensionFromPath(scheme + "://" + host) == ".png"
  {
    var url := scheme + "://" + host;
    assert '?' !in url;
    BeforeQueryOfQueryFree(url);
    UrlPathAfterHost(scheme, host, "");
    assert url == scheme + "://" + host + "";
  }

  /**
    As written, a URL whose path has no extension takes its extension from the host name, and the
    '/' that brings along makes createTempFile, hence the download, fail; with no path at all the
    host's ending is the extension. PathRuleIgnoresHost and PathRuleOfHostOnly give ".png" for
    both URLs under the corrected rule.
   */
  lemma ExtensionFromHostAsWritten(random: nat)
    ensures GetExtensionFromUrl("http://a.b/c") == ".b/c"
    ensures DownloadImage("http://a.b/c", Some(200), random) == Failure(DownloadFailed)
    ensures GetExtensionFromUrl("http://a.b") == ".b"
  {
    HostExtensionWithPath();
    assert ".b/c"[2] == '/';
    DownloadOfRejectedExtension("http://a.b/c", random, ".b/c");
    HostExtensionWithoutPath();
  }

  /** As written, "http://a.b/c" takes its extension from the host onwards. */
  lemma HostExtensionWithPath()
    ensures GetExtensionFromUrl("http://a.b/c") == ".b/c"
  {
    var url := "http://a.b/c";
    assert url[9..] == "b/c" && url[8..] == ".b/c";
    LastIndexOfAt(url, '.', 8);
    assert '?' !in url[8..];
  }

  /** As written, "http://a.b" takes the host's ending as its extension. */
  lemma HostExtensionWithoutPath()
    ensures GetExtensionFromUrl("http://a.b") == ".b"
  {
    var hostOnly := "http://a.b";
    assert hostOnly[9..] == "b" && hostOnly[8..] == ".b";
    LastIndexOfAt(hostOnly, '.', 8);
  }

  /** A 2xx download fails when the extension still holds a '/' before its trailing ones. */
  lemma DownloadOfRejectedExtension(imageUrl: string, random: nat, ext: string)
    requires GetExtensionFromUrl(imageUrl) == ext
    requires '/' in WithoutTrailingSlashes(ext)
    ensures DownloadImage(imageUrl, Some(200), random) == Failure(DownloadFailed)
  {
    AcceptedTempNameOfExtension(UnsignedDecimal(random), ext);
  }

  /**
    As written, the content type detected for the thumbnail key never reaches S3: the request
    uploadFile sends carries no metadata, where the corrected request carries image/webp.
   */
  lemma ContentTypeDroppedAsWritten(bucket: string, uuid: string, file: string, s3Accepts: PutObjectRequest -> bool)
    ensures DetectContentType(ThumbnailKey(uuid)) == "image/webp"
    ensures UploadFile(bucket, ThumbnailKey(uuid), file, s3Accepts).Success? ==>
      UploadFile(bucket, ThumbnailKey(uuid), file, s3Accepts).value.metadata.None?
    ensures PutRequest(bucket, ThumbnailKey(uuid), file).metadata == Some(ObjectMetadata("image/webp"))
  {
    ThumbnailKeyIsWebp(uuid);
  }
}
