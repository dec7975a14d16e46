/** The static-file helpers of `rest_server.c`: the content type chosen from a
    file's suffix, the file path built from the web root and the request URI,
    and the size guard on a posted body. */
module Rest {
  import opened CStr

  /** `ESP_VFS_PATH_MAX` of ESP-IDF's virtual file system (`esp_vfs.h` is not part
      of this model; 15 is its value there). */
  const ESP_VFS_PATH_MAX: nat := 15
  const FILE_PATH_MAX: nat := ESP_VFS_PATH_MAX + 128
  const SCRATCH_BUFSIZE: nat := 10240

  // ---------------------------------------------------------------- content type

  /** A suffix and the content type it selects. */
  datatype Mime = Mime(ext: string, kind: string)

  const HTML: Mime := Mime(".html", "text/html")
  const JS: Mime := Mime(".js", "application/javascript")
  const CSS: Mime := Mime(".css", "text/css")
  const PNG: Mime := Mime(".png", "image/png")
  const ICO: Mime := Mime(".ico", "image/x-icon")
  const SVG: Mime := Mime(".svg", "text/xml")

  /** The suffixes `set_content_type_from_file` tries, in order. */
  const MIME_TABLE: seq<Mime> := [HTML, JS, CSS, PNG, ICO, SVG]

  const DEFAULT_TYPE: string := "text/plain"

  /** The longest suffix in the table. */
  const LONGEST_SUFFIX: nat := 5

  /** Every suffix in the table fits a path of `LONGEST_SUFFIX` bytes. */
  predicate SuffixesFit(path: string, table: seq<Mime>) {
    forall i :: 0 <= i < |table| ==> |table[i].ext| <= |path|
  }

  /** The type of the first table entry whose suffix `path` ends with, ignoring case. */
  function FirstMatch(path: string, table: seq<Mime>): (r: Option<string>)
    requires SuffixesFit(path, table)
    decreases |table|
  {
    if |table| == 0 then None
    else if EndsWithIgnoreCase(path, table[0].ext) then Some(table[0].kind)
    else
      assert forall i :: 1 <= i < |table| ==> table[i] == table[1..][i - 1];
      FirstMatch(path, table[1..])
  }

  /** No match exactly when no suffix matches; a match is the type of a matching
      entry, and of the first one. */
  lemma {:induction false} FirstMatchSpec(path: string, table: seq<Mime>)
    requires SuffixesFit(path, table)
    ensures FirstMatch(path, table).None?
            <==> forall i :: 0 <= i < |table| ==> !EndsWithIgnoreCase(path, table[i].ext)
    ensures FirstMatch(path, table).Some? ==>
              exists i :: 0 <= i < |table| && EndsWithIgnoreCase(path, table[i].ext)
                          && FirstMatch(path, table).value == table[i].kind
                          && forall j :: 0 <= j < i ==> !EndsWithIgnoreCase(path, table[j].ext)
    decreases |table|
  {
    if |table| > 0 && !EndsWithIgnoreCase(path, table[0].ext) {
      var rest := table[1..];
      assert forall i :: 1 <= i < |table| ==> table[i] == rest[i - 1];
      FirstMatchSpec(path, rest);
      if FirstMatch(path, rest).Some? {
        var k :| 0 <= k < |rest| && EndsWithIgnoreCase(path, rest[k].ext)
                 && FirstMatch(path, rest).value == rest[k].kind
                 && forall j :: 0 <= j < k ==> !EndsWithIgnoreCase(path, rest[j].ext);
        assert forall j :: 1 <= j < k + 1 ==> table[j] == rest[j - 1];
        assert table[k + 1] == rest[k];
      }
    }
  }

  /** `set_content_type_from_file`: the chain of `CHECK_FILE_EXTENSION` tests. The
      first test already reads `path[strlen(path) - 5]`, so the path must be at
      least as long as `.html`. */
  function ContentType(path: string): (t: string)
    requires |path| >= LONGEST_SUFFIX
    ensures t in [HTML.kind, JS.kind, CSS.kind, PNG.kind, ICO.kind, SVG.kind, DEFAULT_TYPE]
    ensures EndsWithIgnoreCase(path, HTML.ext) ==> t == HTML.kind
    ensures t == DEFAULT_TYPE ==>
              && !EndsWithIgnoreCase(path, HTML.ext) && !EndsWithIgnoreCase(path, JS.ext)
              && !EndsWithIgnoreCase(path, CSS.ext) && !EndsWithIgnoreCase(path, PNG.ext)
              && !EndsWithIgnoreCase(path, ICO.ext) && !EndsWithIgnoreCase(path, SVG.ext)
  {
    assert |HTML.kind| == 9 && |JS.kind| == 22 && |CSS.kind| == 8 && |DEFAULT_TYPE| == 10;
    assert |PNG.kind| == 9 && |ICO.kind| == 12 && |SVG.kind| == 8;
    if EndsWithIgnoreCase(path, HTML.ext) then HTML.kind
    else if EndsWithIgnoreCase(path, JS.ext) then JS.kind
    else if EndsWithIgnoreCase(path, CSS.ext) then CSS.kind
    else if EndsWithIgnoreCase(path, PNG.ext) then PNG.kind
    else if EndsWithIgnoreCase(path, ICO.ext) then ICO.kind
    else if EndsWithIgnoreCase(path, SVG.ext) then SVG.kind
    else DEFAULT_TYPE
  }

  lemma TableFits(path: string)
    requires |path| >= LONGEST_SUFFIX
    ensures SuffixesFit(path, MIME_TABLE)
  {
    assert |HTML.ext| == 5 && |JS.ext| == 3 && |CSS.ext| == 4;
    assert |PNG.ext| == 4 && |ICO.ext| == 4 && |SVG.ext| == 4;
  }

  lemma FirstMatchStep(path: string, t: seq<Mime>)
    requires |t| > 0 && SuffixesFit(path, t)
    ensures SuffixesFit(path, t[1..])
    ensures FirstMatch(path, t)
            == if EndsWithIgnoreCase(path, t[0].ext) then Some(t[0].kind) else FirstMatch(path, t[1..])
  {
    assert forall i :: 1 <= i < |t| ==> t[i] == t[1..][i - 1];
  }

  /** The chain is the first match in the table, and `text/plain` when no suffix
      matches. */
  lemma ContentTypeIsFirstMatch(path: string)
    requires |path| >= LONGEST_SUFFIX
    ensures SuffixesFit(path, MIME_TABLE)
    ensures ContentType(path) == match FirstMatch(path, MIME_TABLE)
                                 case Some(t) => t
                                 case None => DEFAULT_TYPE
  {
    assert |HTML.ext| == 5 && |JS.ext| == 3 && |CSS.ext| == 4;
    assert |PNG.ext| == 4 && |ICO.ext| == 4 && |SVG.ext| == 4;
    var t0 := MIME_TABLE;
    var t1 := t0[1..];
    var t2 := t1[1..];
    var t3 := t2[1..];
    var t4 := t3[1..];
    var t5 := t4[1..];
    assert t0[0] == HTML && t1[0] == JS && t2[0] == CSS && t3[0] == PNG && t4[0] == ICO && t5[0] == SVG;
    assert |t5| == 1;
    TableFits(path);
    FirstMatchStep(path, t5);
    FirstMatchStep(path, t4);
    FirstMatchStep(path, t3);
    FirstMatchStep(path, t2);
    FirstMatchStep(path, t1);
    FirstMatchStep(path, t0);
  }

  /** Text/plain is chosen exactly when no listed suffix matches. */
  lemma DefaultIffNoSuffix(path: string)
    requires |path| >= LONGEST_SUFFIX
    ensures SuffixesFit(path, MIME_TABLE)
    ensures ContentType(path) == DEFAULT_TYPE
            <==> forall i :: 0 <= i < |MIME_TABLE| ==> !EndsWithIgnoreCase(path, MIME_TABLE[i].ext)
  {
    ContentTypeIsFirstMatch(path);
    FirstMatchSpec(path, MIME_TABLE);
    var r := FirstMatch(path, MIME_TABLE);
    if r.Some? {
      var i :| 0 <= i < |MIME_TABLE| && r.value == MIME_TABLE[i].kind;
      assert |MIME_TABLE[i].kind| != |DEFAULT_TYPE| by {
        assert |HTML.kind| == 9 && |JS.kind| == 22 && |CSS.kind| == 8;
        assert |PNG.kind| == 9 && |ICO.kind| == 12 && |SVG.kind| == 8;
      }
    }
  }

  /** Paths that agree up to letter case get the same type. */
  lemma ContentTypeIgnoresCase(p: string, q: string)
    requires |p| == |q| >= LONGEST_SUFFIX
    requires forall i :: 0 <= i < |p| ==> ToLower(p[i]) == ToLower(q[i])
    ensures ContentType(p) == ContentType(q)
  {
    SameSuffixIgnoringCase(p, q, HTML.ext);
    SameSuffixIgnoringCase(p, q, JS.ext);
    SameSuffixIgnoringCase(p, q, CSS.ext);
    SameSuffixIgnoringCase(p, q, PNG.ext);
    SameSuffixIgnoringCase(p, q, ICO.ext);
    SameSuffixIgnoringCase(p, q, SVG.ext);
  }

  lemma SameSuffixIgnoringCase(p: string, q: string, ext: string)
    requires |p| == |q| >= |ext|
    requires forall i :: 0 <= i < |p| ==> ToLower(p[i]) == ToLower(q[i])
    ensures EndsWithIgnoreCase(p, ext) == EndsWithIgnoreCase(q, ext)
  {
    var k := |p| - |ext|;
    assert forall i :: 0 <= i < |ext| ==> p[k..][i] == p[k + i] && q[k..][i] == q[k + i];
  }

  /** Any name followed by a listed suffix gets that suffix's type: no earlier
      suffix in the chain is also a suffix of it. */
  lemma SuffixSelectsType(name: string, i: nat)
    requires i < |MIME_TABLE|
    requires |name + MIME_TABLE[i].ext| >= LONGEST_SUFFIX
    ensures ContentType(name + MIME_TABLE[i].ext) == MIME_TABLE[i].kind
  {
    var e := MIME_TABLE[i];
    var p := name + e.ext;
    assert p[|p| - |e.ext|..] == e.ext;
    var c1, c2 := p[|p| - 1], p[|p| - 2];
    assert c1 == e.ext[|e.ext| - 1] && c2 == e.ext[|e.ext| - 2];
    if i == 0 {
      assert e == HTML;
    } else if i == 1 {
      assert e == JS && c1 == 's';
      LastCharDiffers(p, HTML.ext);
    } else if i == 2 {
      assert e == CSS && c1 == 's' && c2 == 's';
      LastCharDiffers(p, HTML.ext);
      SecondLastCharDiffers(p, JS.ext);
    } else if i == 3 {
      assert e == PNG && c1 == 'g';
      LastCharDiffers(p, HTML.ext);
      LastCharDiffers(p, JS.ext);
      LastCharDiffers(p, CSS.ext);
    } else if i == 4 {
      assert e == ICO && c1 == 'o';
      LastCharDiffers(p, HTML.ext);
      LastCharDiffers(p, JS.ext);
      LastCharDiffers(p, CSS.ext);
      LastCharDiffers(p, PNG.ext);
    } else {
      assert e == SVG && c1 == 'g' && c2 == 'v';
      LastCharDiffers(p, HTML.ext);
      LastCharDiffers(p, JS.ext);
      LastCharDiffers(p, CSS.ext);
      SecondLastCharDiffers(p, PNG.ext);
      LastCharDiffers(p, ICO.ext);
    }
    SelfMatch(p, e.ext);
  }

  lemma SelfMatch(p: string, ext: string)
    requires |p| >= |ext| && p[|p| - |ext|..] == ext
    ensures EndsWithIgnoreCase(p, ext)
  {
  }

  lemma LastCharDiffers(p: string, ext: string)
    requires |p| >= |ext| > 0
    requires ToLower(p[|p| - 1]) != ToLower(ext[|ext| - 1])
    ensures !EndsWithIgnoreCase(p, ext)
  {
    assert p[|p| - |ext|..][|ext| - 1] == p[|p| - 1];
  }

  lemma SecondLastCharDiffers(p: string, ext: string)
    requires |p| >= |ext| > 1
    requires ToLower(p[|p| - 2]) != ToLower(ext[|ext| - 2])
    ensures !EndsWithIgnoreCase(p, ext)
  {
    assert p[|p| - |ext|..][|ext| - 2] == p[|p| - 2];
  }

  // ---------------------------------------------------------------- file path

  /** What `rest_common_get_handler` appends to the web root: `/index.html` for a
      URI ending in `/`, otherwise the URI itself. */
  function PathSuffix(uri: string): string
    requires |uri| > 0
  {
    if uri[|uri| - 1] == '/' then "/index.html" else uri
  }

  /** The path the handler opens: the web root copied into a `FILE_PATH_MAX`
      buffer, then the suffix appended into the same buffer. The URI's last byte is
      read unconditionally, so the URI may not be empty. */
  function FilePath(base: string, uri: string): (p: string)
    requires |uri| > 0
    ensures |p| < FILE_PATH_MAX
    ensures p <= base + PathSuffix(uri)
    ensures |base + PathSuffix(uri)| < FILE_PATH_MAX ==> p == base + PathSuffix(uri)
    ensures p == Strlcpy(base + PathSuffix(uri), FILE_PATH_MAX)
  {
    StrlcpyThenStrlcat(base, PathSuffix(uri), FILE_PATH_MAX);
    Strlcat(Strlcpy(base, FILE_PATH_MAX), PathSuffix(uri), FILE_PATH_MAX)
  }

  /** Every URI ending in `/` serves the root's index page, whatever directory it
      names. */
  lemma DirectoryUriServesRootIndex(base: string, dir: string)
    ensures FilePath(base, dir + "/") == FilePath(base, "/")
  {
    assert (dir + "/")[|dir + "/"| - 1] == '/';
  }

  // ---------------------------------------------------------------- body guard

  /** `light_brightness_post_handler`'s guard as written: the body length is read
      into an `int` (two's complement, so lengths of 2^31 and more turn negative),
      the body is accepted when that value is below `SCRATCH_BUFSIZE`, and the
      terminator is then written at that index. `None` is the 500 reply. */
  function TerminatorIndex(contentLen: uint32): (r: Option<int>)
    ensures r.Some? <==> ToInt32(contentLen) < SCRATCH_BUFSIZE
    ensures r.Some? ==> r.value == ToInt32(contentLen)
    ensures contentLen < 0x8000_0000 ==> (r.Some? <==> contentLen < SCRATCH_BUFSIZE)
  {
    var total := ToInt32(contentLen);
    if total >= SCRATCH_BUFSIZE as int then None else Some(total)
  }

  /** The conversion of a `size_t` length to `int` on a 32-bit target. */
  function ToInt32(n: uint32): (r: int)
    ensures INT32_MIN <= r <= INT32_MAX
    ensures n <= INT32_MAX ==> r == n
    ensures n > INT32_MAX ==> r == n - 0x1_0000_0000
  {
    if n <= INT32_MAX then n else n - 0x1_0000_0000
  }

  /** Every length of 2^31 or more passes the guard, and the terminator lands
      before the buffer. */
  lemma HugeLengthPassesGuard(contentLen: uint32)
    requires contentLen > INT32_MAX
    ensures TerminatorIndex(contentLen).Some? && TerminatorIndex(contentLen).value < 0
  {
  }

  /** The guard with the length compared before the conversion. */
  function TerminatorIndexChecked(contentLen: uint32): (r: Option<int>)
    ensures r.Some? <==> contentLen < SCRATCH_BUFSIZE
  {
    if contentLen >= SCRATCH_BUFSIZE as int then None else Some(contentLen as int)
  }

  /** With the unsigned comparison an accepted body and its terminator fit the
      scratch buffer. */
  lemma CheckedTerminatorInBuffer(contentLen: uint32)
    ensures TerminatorIndexChecked(contentLen).Some? ==> 0 <= TerminatorIndexChecked(contentLen).value < SCRATCH_BUFSIZE
    ensures TerminatorIndexChecked(contentLen).Some? <==> TerminatorIndex(contentLen).Some? && contentLen <= INT32_MAX
  {
  }
}
