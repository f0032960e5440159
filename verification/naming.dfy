/** Names and paths of the history tool: the layout of the output directory,
    the artifact that a LaTeX build leaves in the workspace, and the name under
    which a commit's artifact is cached. */
module Naming {
  import opened Wrappers

  /** A path as its sequence of components; a component holds no separator. */
  type Path = seq<string>

  /** A git object id as it is displayed: 40 hexadecimal characters. */
  type Oid = s: string | |s| == 40 witness "0000000000000000000000000000000000000000"

  /** The command line of the tool. */
  datatype Args = Args(mainTexFile: Path, repoPath: Path, outputDir: Path, latexmkArgs: seq<string>)

  const CACHE_DIR_NAME := "cache"
  const DATA_FILE_NAME := "textory_data.csv"
  const REPORT_FILE_NAME := "textory_report.html"

  function CacheDir(args: Args): Path { args.outputDir + [CACHE_DIR_NAME] }

  function OutputFile(args: Args): Path { args.outputDir + [DATA_FILE_NAME] }

  function ReportFile(args: Args): Path { args.outputDir + [REPORT_FILE_NAME] }

  // ---------------------------------------------------------------------------
  // File stems and extensions, as Path::file_stem and Path::with_extension
  // split and rebuild the last component.

  /** The position of the last '.' in s[..n] other than a leading one. */
  function LastDot(s: string, n: nat): (r: Option<nat>)
    requires n <= |s|
    ensures r.Some? ==> 1 <= r.value < n && s[r.value] == '.'
    ensures r.Some? ==> forall j :: r.value < j < n ==> s[j] != '.'
    ensures r.None? ==> forall j :: 1 <= j < n ==> s[j] != '.'
    decreases n
  {
    if n <= 1 then None
    else if s[n - 1] == '.' then Some(n - 1)
    else LastDot(s, n - 1)
  }

  /** The file name without its extension; a leading dot starts no extension. */
  function Stem(name: string): string {
    match LastDot(name, |name|)
    case Some(i) => name[..i]
    case None => name
  }

  /** The text after the last non-leading dot, if there is one. */
  function Extension(name: string): Option<string> {
    match LastDot(name, |name|)
    case Some(i) => Some(name[i + 1..])
    case None => None
  }

  /** The file name with its extension replaced by ext (removed when ext is empty). */
  function WithExtension(name: string, ext: string): string {
    Stem(name) + (if ext == "" then "" else "." + ext)
  }

  lemma StemNonEmpty(name: string)
    requires name != ""
    ensures Stem(name) != "" && Stem(name) <= name
  {
  }

  /** Replacing the extension keeps the stem and installs exactly ext. */
  lemma WithExtensionSplits(name: string, ext: string)
    requires name != "" && ext != "" && '.' !in ext
    ensures Stem(WithExtension(name, ext)) == Stem(name)
    ensures Extension(WithExtension(name, ext)) == Some(ext)
  {
    var s := Stem(name);
    StemNonEmpty(name);
    var t := WithExtension(name, ext);
    assert t == s + "." + ext;
    assert t[|s|] == '.';
    forall j | |s| < j < |t|
      ensures t[j] != '.'
    {
      assert t[j] == ext[j - |s| - 1];
    }
    var r := LastDot(t, |t|);
    assert r == Some(|s|);
    assert t[..|s|] == s;
    assert t[|s| + 1..] == ext;
  }

  /** Replacing the extension twice is the same as replacing it once. */
  lemma WithExtensionIdempotent(name: string, ext: string)
    requires name != "" && ext != "" && '.' !in ext
    ensures WithExtension(WithExtension(name, ext), ext) == WithExtension(name, ext)
  {
    WithExtensionSplits(name, ext);
  }

  /** The path of the PDF that latexmk leaves for the entry file: the entry
      path with the extension of its last component replaced by "pdf". */
  function PdfPath(mainTexFile: Path): Path {
    if mainTexFile == [] then []
    else mainTexFile[..|mainTexFile| - 1] + [WithExtension(mainTexFile[|mainTexFile| - 1], "pdf")]
  }

  /** The artifact of a build in the workspace rooted at workspace. */
  function ArtifactPath(workspace: Path, mainTexFile: Path): Path {
    workspace + PdfPath(mainTexFile)
  }

  /** The artifact lies in the workspace, in the entry file's directory, under
      the entry file's stem with the extension "pdf". */
  lemma ArtifactPathShape(workspace: Path, mainTexFile: Path)
    requires mainTexFile != [] && mainTexFile[|mainTexFile| - 1] != ""
    ensures var a := ArtifactPath(workspace, mainTexFile);
      && |a| == |workspace| + |mainTexFile|
      && a[..|workspace|] == workspace
      && a[|workspace|..|a| - 1] == mainTexFile[..|mainTexFile| - 1]
      && Stem(a[|a| - 1]) == Stem(mainTexFile[|mainTexFile| - 1])
      && Extension(a[|a| - 1]) == Some("pdf")
  {
    var a := ArtifactPath(workspace, mainTexFile);
    var name := mainTexFile[|mainTexFile| - 1];
    WithExtensionSplits(name, "pdf");
    assert a[|a| - 1] == WithExtension(name, "pdf");
    assert a[|workspace|..|a| - 1] == mainTexFile[..|mainTexFile| - 1];
  }

  // ---------------------------------------------------------------------------
  // Decimal rendering of the walk index, as format!("{id}") writes a usize.

  predicate IsDigit(c: char) { '0' <= c <= '9' }

  predicate AllDigits(s: string) { forall i :: 0 <= i < |s| ==> IsDigit(s[i]) }

  function Digit(d: nat): (c: char)
    requires d < 10
  {
    (48 + d) as char
  }

  function DigitValue(c: char): nat
    requires IsDigit(c)
  {
    c as int - 48
  }

  /** The decimal digits of n, without leading zeros. */
  function DecimalString(n: nat): (s: string)
    ensures AllDigits(s) && |s| >= 1
    ensures |s| == 1 <==> n < 10
    ensures |s| > 1 ==> s[0] != '0'
    decreases n
  {
    if n < 10 then [Digit(n)] else DecimalString(n / 10) + [Digit(n % 10)]
  }

  /** The number a string of decimal digits denotes. */
  function DecimalValue(s: string): nat
    requires AllDigits(s)
  {
    if s == [] then 0 else DecimalValue(s[..|s| - 1]) * 10 + DigitValue(s[|s| - 1])
  }

  /** Reading back the rendered index gives the index. */
  lemma {:induction false} DecimalRoundTrip(n: nat)
    ensures DecimalValue(DecimalString(n)) == n
  {
    if n >= 10 {
      var s := DecimalString(n / 10);
      var t := DecimalString(n);
      assert t == s + [Digit(n % 10)];
      assert t[..|t| - 1] == s;
      DecimalRoundTrip(n / 10);
    }
  }

  lemma DecimalInjective(a: nat, b: nat)
    ensures DecimalString(a) == DecimalString(b) <==> a == b
  {
    DecimalRoundTrip(a);
    DecimalRoundTrip(b);
  }

  // ---------------------------------------------------------------------------
  // Cache keys.

  /** The seven-character abbreviation of a commit id used in artifact names. */
  function ShortHash(id: Oid): (h: string)
    ensures |h| == 7 && h <= id
  {
    id[..7]
  }

  /** The file name of the cached artifact for the commit at walk position index. */
  function CacheFileName(index: nat, shortHash: string): string {
    "thesis_" + DecimalString(index) + "-" + shortHash + ".pdf"
  }

  /** The cached artifact's path for the commit id at walk position index. */
  function CachePdfPath(args: Args, index: nat, id: Oid): Path {
    CacheDir(args) + [CacheFileName(index, ShortHash(id))]
  }

  /** Two cache file names with abbreviations of one length coincide exactly
      when their indices and abbreviations do. */
  lemma CacheFileNameInjective(i1: nat, h1: string, i2: nat, h2: string)
    requires |h1| == |h2|
    ensures CacheFileName(i1, h1) == CacheFileName(i2, h2) <==> i1 == i2 && h1 == h2
  {
    if CacheFileName(i1, h1) == CacheFileName(i2, h2) {
      var a := CacheFileName(i1, h1);
      var d1, d2 := DecimalString(i1), DecimalString(i2);
      assert |d1| == |d2|;
      assert a[7..7 + |d1|] == d1;
      assert CacheFileName(i2, h2)[7..7 + |d2|] == d2;
      DecimalInjective(i1, i2);
      assert a[8 + |d1|..8 + |d1| + |h1|] == h1;
      assert CacheFileName(i2, h2)[8 + |d2|..8 + |d2| + |h2|] == h2;
    }
  }

  /** Cache paths collide exactly when the walk positions agree and the ids
      share their first seven characters: the path is a function of that pair
      and of nothing else, and distinct pairs never share a path. */
  lemma CachePdfPathCollision(args: Args, i1: nat, id1: Oid, i2: nat, id2: Oid)
    ensures CachePdfPath(args, i1, id1) == CachePdfPath(args, i2, id2)
        <==> i1 == i2 && id1[..7] == id2[..7]
  {
    CacheFileNameInjective(i1, ShortHash(id1), i2, ShortHash(id2));
    var p1, p2 := CachePdfPath(args, i1, id1), CachePdfPath(args, i2, id2);
    if p1 == p2 {
      assert p1[|p1| - 1] == p2[|p2| - 1];
    }
  }

  /** The cache directory, the data file and the report are three different
      entries of the output directory, and no cached artifact is the data file
      or the report. */
  lemma OutputLayout(args: Args, index: nat, id: Oid)
    ensures CacheDir(args) != OutputFile(args) && CacheDir(args) != ReportFile(args)
    ensures OutputFile(args) != ReportFile(args)
    ensures var p := CachePdfPath(args, index, id);
      p[..|CacheDir(args)|] == CacheDir(args) && p != OutputFile(args) && p != ReportFile(args)
  {
    var n := |args.outputDir|;
    assert CacheDir(args)[n] != OutputFile(args)[n];
    assert CacheDir(args)[n] != ReportFile(args)[n];
    assert OutputFile(args)[n] != ReportFile(args)[n];
  }
}
