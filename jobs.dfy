/**
 * The naming and validation rules of the transcription-job helpers: the
 * argument check run before a batch, the extension test for uploadable files,
 * the cloud folder derived from a local folder, the job name derived from an
 * object key, the local name of a downloaded object, and the id a transcript
 * file name is recorded under.
 */
module JobNaming {
  import opened Results
  import opened Text

  // ------------------------------------------------------------ check_assertions

  /** The assertion of `check_assertions` that fails first. */
  datatype CheckError = BadInputFolder | BadOutputFolder | BadVersion

  /** `len(input_folder.split("/")) == 3`. */
  predicate InputFolderOk(f: string) {
    |SplitOn(f, '/')| == 3
  }

  /** `re.match(r"^[a-zA-Z]+/$", f)`: one or more ASCII letters and a slash;
      `$` also matches before a newline that ends the text. */
  predicate OutputFolderOk(f: string) {
    var n := if |f| > 0 && f[|f| - 1] == '\n' then |f| - 1 else |f|;
    && n >= 2 && f[n - 1] == '/'
    && forall i | 0 <= i < n - 1 :: IsAsciiLetter(f[i])
  }

  /** `len(version) == 1 and version.isalpha()`. */
  predicate VersionOk(v: string) {
    |v| == 1 && IsAsciiLetter(v[0])
  }

  /** `check_assertions`: the first failing assertion, if any, in source order. */
  function CheckAssertions(input: string, output: string, version: string): (r: Option<CheckError>)
    ensures r == None <==> InputFolderOk(input) && OutputFolderOk(output) && VersionOk(version)
    ensures r == Some(BadInputFolder) <==> !InputFolderOk(input)
    ensures r == Some(BadOutputFolder) <==> InputFolderOk(input) && !OutputFolderOk(output)
    ensures r == Some(BadVersion) <==> InputFolderOk(input) && OutputFolderOk(output) && !VersionOk(version)
  {
    if !InputFolderOk(input) then Some(BadInputFolder)
    else if !OutputFolderOk(output) then Some(BadOutputFolder)
    else if !VersionOk(version) then Some(BadVersion)
    else None
  }

  /** An input folder passes exactly when it holds two slashes, as `"data/audio/"` does. */
  lemma InputFolderSlashes(f: string)
    ensures InputFolderOk(f) <==> Count(f, '/') == 2
  {
    SplitOnCount(f, '/');
  }

  /** The output folders that pass: letters, a slash, and at most a final newline. */
  lemma OutputFolderExamples()
    ensures OutputFolderOk("transcriptions/")
    ensures OutputFolderOk("transcriptions/\n")
    ensures !OutputFolderOk("transcriptions")
    ensures !OutputFolderOk("/")
    ensures !OutputFolderOk("out/put/")
    ensures !OutputFolderOk("out_1/")
  {
    assert "out/put/"[3] == '/';
    assert "out_1/"[3] == '_';
  }

  // ------------------------------------------------------------ input_cloud

  /** `input_folder.split("/")[-2] + "/"`; `None` where the index is out of range. */
  function InputCloud(f: string): (r: Option<string>)
    ensures r.Some? <==> Count(f, '/') >= 1
    ensures r.Some? ==> |r.value| > 0 && r.value[|r.value| - 1] == '/'
  {
    SplitOnCount(f, '/');
    var ps := SplitOn(f, '/');
    if |ps| < 2 then None else Some(ps[|ps| - 2] + "/")
  }

  /** For an input folder `a/b/c` that `check_assertions` accepts, the cloud
      folder is its middle segment with a slash, as `"audio/"` for `"data/audio/"`. */
  lemma InputCloudOfAccepted(a: string, b: string, c: string)
    requires '/' !in a && '/' !in b && '/' !in c
    ensures InputFolderOk(a + "/" + b + "/" + c)
    ensures InputCloud(a + "/" + b + "/" + c) == Some(b + "/")
  {
    var f := a + "/" + b + "/" + c;
    SplitOnNone(c, '/');
    SplitOnCons(b, '/', c);
    assert a + "/" + b + "/" + c == a + ['/'] + (b + ['/'] + c);
    SplitOnCons(a, '/', b + ['/'] + c);
    assert SplitOn(f, '/') == [a, b, c];
  }

  /** Every accepted input folder has that form. */
  lemma AcceptedInputFolder(f: string)
    requires InputFolderOk(f)
    ensures var ps := SplitOn(f, '/');
      && f == ps[0] + "/" + ps[1] + "/" + ps[2]
      && '/' !in ps[0] && '/' !in ps[1] && '/' !in ps[2]
      && InputCloud(f) == Some(ps[1] + "/")
  {
    var ps := SplitOn(f, '/');
    JoinSplitOn(f, '/');
    assert ps == [ps[0], ps[1], ps[2]];
    JoinThree(ps[0], ps[1], ps[2], "/");
  }

  // ------------------------------------------------------------ job name

  /** The first `.` at or after `j` that no newline precedes from `j` on: where
      the lazy `(.*?)\.` stops, given that `.` does not match a newline. */
  function DotAfter(key: string, j: nat): (r: Option<nat>)
    requires j <= |key|
    ensures r.Some? ==> j <= r.value < |key| && key[r.value] == '.'
    ensures r.Some? ==> forall k | j <= k < r.value :: key[k] != '.' && key[k] != '\n'
    ensures r.None? ==> forall k | j <= k < |key| :: key[k] == '.' ==> exists n | j <= n < k :: key[n] == '\n'
    decreases |key| - j
  {
    if j == |key| || key[j] == '\n' then None
    else if key[j] == '.' then Some(j)
    else DotAfter(key, j + 1)
  }

  /** `re.search(r"\/(.*?)\.", key)` from index `i` on: the group of the
      leftmost match. */
  function SearchFrom(key: string, i: nat): (r: Option<string>)
    requires i <= |key|
    ensures r.Some? ==> '.' !in r.value && '\n' !in r.value
    ensures r.Some? ==> exists k | i <= k < |key| :: key[k] == '/'
    decreases |key| - i
  {
    if i == |key| then None
    else if key[i] == '/' && DotAfter(key, i + 1).Some? then
      var d := DotAfter(key, i + 1).value;
      var g := key[i + 1..d];
      assert forall k | 0 <= k < |g| :: g[k] == key[i + 1 + k];
      Some(g)
    else SearchFrom(key, i + 1)
  }

  /** The error line 285 raises when the key does not match: `None.group(1)`
      is an `AttributeError`, which the surrounding `except ClientError` does
      not catch. */
  datatype NameError = NoMatchInKey

  /** A "/" at `k` from which the lazy group reaches a ".": where a match can start. */
  predicate MatchAt(key: string, k: nat)
    requires k < |key|
  {
    key[k] == '/' && DotAfter(key, k + 1).Some?
  }

  /** The search from `i` fails exactly when no match starts at or after `i`. */
  lemma {:induction false} SearchNone(key: string, i: nat)
    requires i <= |key|
    ensures SearchFrom(key, i).None? <==> forall k | i <= k < |key| :: !MatchAt(key, k)
    decreases |key| - i
  {
    if i < |key| {
      SearchNone(key, i + 1);
      if MatchAt(key, i) {
        assert SearchFrom(key, i).Some?;
      } else {
        assert SearchFrom(key, i) == SearchFrom(key, i + 1);
        assert (forall k | i <= k < |key| :: !MatchAt(key, k)) <==> (forall k | i + 1 <= k < |key| :: !MatchAt(key, k));
      }
    }
  }

  /** The search from `i` returns the group of the leftmost match at or after `i`. */
  lemma {:induction false} SearchFirst(key: string, i: nat, k: nat)
    requires i <= k < |key| && MatchAt(key, k)
    requires forall k' | i <= k' < k :: !MatchAt(key, k')
    ensures SearchFrom(key, i) == Some(key[k + 1..DotAfter(key, k + 1).value])
    decreases k - i
  {
    if i < k {
      assert !MatchAt(key, i);
      SearchFirst(key, i + 1, k);
    } else {
      var d := DotAfter(key, k + 1).value;
      assert SearchFrom(key, i) == Some(key[k + 1..d]);
    }
  }

  lemma SearchLeftmost(key: string)
    ensures forall k | 0 <= k < |key| && MatchAt(key, k) && (forall k' | 0 <= k' < k :: !MatchAt(key, k')) ::
      SearchFrom(key, 0) == Some(key[k + 1..DotAfter(key, k + 1).value])
  {
    forall k | 0 <= k < |key| && MatchAt(key, k) && (forall k' | 0 <= k' < k :: !MatchAt(key, k'))
      ensures SearchFrom(key, 0) == Some(key[k + 1..DotAfter(key, k + 1).value])
    {
      SearchFirst(key, 0, k);
    }
  }

  /** `version + re.search(r"\/(.*?)\.", key).group(1)`: fails exactly when
      no "/" is followed, on the same line, by a "."; otherwise it is the
      version followed by the text between the first such "/" and the next ".". */
  function JobName(version: string, key: string): (r: Result<string, NameError>)
    ensures r.Err? <==> forall k | 0 <= k < |key| :: !MatchAt(key, k)
    ensures forall k | 0 <= k < |key| && MatchAt(key, k) && (forall k' | 0 <= k' < k :: !MatchAt(key, k')) ::
      r == Ok(version + key[k + 1..DotAfter(key, k + 1).value])
    ensures r.Ok? ==> |r.value| >= |version| && r.value[..|version|] == version
    ensures '/' !in key ==> r.Err?
  {
    SearchNone(key, 0);
    SearchLeftmost(key);
    match SearchFrom(key, 0)
    case None => Err(NoMatchInKey)
    case Some(g) => Ok(version + g)
  }

  lemma {:induction false} SearchFromSkips(key: string, i: nat, j: nat)
    requires i <= j <= |key|
    requires forall k | i <= k < j :: key[k] != '/'
    ensures SearchFrom(key, i) == SearchFrom(key, j)
    decreases j - i
  {
    if i < j {
      SearchFromSkips(key, i + 1, j);
    }
  }

  lemma {:induction false} DotAfterStem(key: string, j: nat, d: nat)
    requires j <= d < |key| && key[d] == '.'
    requires forall k | j <= k < d :: key[k] != '.' && key[k] != '\n'
    ensures DotAfter(key, j) == Some(d)
    decreases d - j
  {
    if j < d {
      DotAfterStem(key, j + 1, d);
    }
  }

  /** For an object key `folder/stem.ext` (no slash in `folder`, no dot and no
      newline in `stem`) the job name is the version followed by `stem`. */
  lemma JobNameOfKey(version: string, folder: string, stem: string, ext: string)
    requires '/' !in folder && '.' !in stem && '\n' !in stem
    ensures JobName(version, folder + "/" + stem + "." + ext) == Ok(version + stem)
  {
    var key := folder + "/" + stem + "." + ext;
    var i, d := |folder|, |folder| + 1 + |stem|;
    assert key[i] == '/' && key[d] == '.';
    assert forall k | 0 <= k < i :: key[k] == folder[k];
    assert forall k | i + 1 <= k < d :: key[k] == stem[k - i - 1];
    SearchFromSkips(key, 0, i);
    DotAfterStem(key, i + 1, d);
    assert key[i + 1..d] == stem;
  }

  // ------------------------------------------------------------ csv id

  /** `file.split(".")[0][1:]`: the name up to its first dot, without its first
      character (the version letter). */
  function CsvId(file: string): (id: string)
    ensures '.' !in id
    ensures |id| < |file| || file == []
  {
    var first := SplitOn(file, '.')[0];
    JoinSplitOn(file, '.');
    FirstPieceShorter(SplitOn(file, '.'), ".");
    if first == [] then [] else first[1..]
  }

  lemma FirstPieceShorter(ps: seq<string>, sep: string)
    requires |ps| > 0
    ensures |ps[0]| <= |Join(ps, sep)|
  {
    if |ps| > 1 {
      assert Join(ps, sep) == ps[0] + sep + Join(ps[1..], sep);
    }
  }

  /** The id of the transcript `<job name>.json` of the object `folder/stem.ext`
      is `stem` again, whenever the version is one letter. */
  lemma CsvIdOfJob(version: string, folder: string, stem: string, ext: string)
    requires VersionOk(version)
    requires '/' !in folder && '.' !in stem && '\n' !in stem
    ensures JobName(version, folder + "/" + stem + "." + ext).Ok?
    ensures CsvId(JobName(version, folder + "/" + stem + "." + ext).value + ".json") == stem
  {
    JobNameOfKey(version, folder, stem, ext);
    var name := version + stem;
    assert '.' !in name by {
      assert forall k | 0 <= k < |name| :: name[k] == if k == 0 then version[0] else stem[k - 1];
    }
    assert name + ".json" == name + ['.'] + "json";
    SplitOnCons(name, '.', "json");
    assert name[1..] == stem;
  }

  // ------------------------------------------------------------ download name

  /** `object_key.split("/")[1]`; `None` where the key has no slash. */
  function DownloadName(key: string): (r: Option<string>)
    ensures r.Some? <==> '/' in key
    ensures r.Some? ==> '/' !in r.value
  {
    SplitOnCount(key, '/');
    var ps := SplitOn(key, '/');
    if |ps| < 2 then None else Some(ps[1])
  }

  /** The object `folder/name` is saved under `name`. */
  lemma DownloadNameOfKey(folder: string, name: string)
    requires '/' !in folder && '/' !in name
    ensures DownloadName(folder + "/" + name) == Some(name)
  {
    SplitOnNone(name, '/');
    SplitOnCons(folder, '/', name);
  }

  /** An object nested deeper, `folder/name/rest`, is saved under `name`: the
      part of the key between its first and second slash. */
  lemma DownloadNameOfNestedKey(folder: string, name: string, rest: string)
    requires '/' !in folder && '/' !in name
    ensures DownloadName(folder + "/" + name + "/" + rest) == Some(name)
  {
    SplitOnCons(name, '/', rest);
    SplitOnCons(folder, '/', name + "/" + rest);
    assert folder + "/" + name + "/" + rest == folder + ['/'] + (name + ['/'] + rest);
  }

  // ------------------------------------------------------------ is_transcribable_file

  /** `str.rfind(c)` as an option. */
  function LastIndexOf(s: string, c: char): (r: Option<nat>)
    ensures r.Some? ==> r.value < |s| && s[r.value] == c && forall k | r.value < k < |s| :: s[k] != c
    ensures r.None? ==> c !in s
  {
    if s == [] then None
    else if s[|s| - 1] == c then Some(|s| - 1)
    else LastIndexOf(s[..|s| - 1], c)
  }

  lemma LastIndexOfAt(s: string, c: char, i: nat)
    requires i < |s| && s[i] == c && forall k | i < k < |s| :: s[k] != c
    ensures LastIndexOf(s, c) == Some(i)
  {
    var r := LastIndexOf(s, c);
    assert s[i] in s;
  }

  /** The extension `os.path.splitext` finds: from the last dot of the base
      name on, unless the base name has nothing but dots before that dot. */
  function Extension(p: string): (e: string)
    ensures e == [] || (e[0] == '.' && '/' !in e && '.' !in e[1..])
  {
    var start := match LastIndexOf(p, '/') case None => 0 case Some(i) => i + 1;
    match LastIndexOf(p, '.')
    case None => []
    case Some(d) =>
      if start <= d && exists k | start <= k < d :: p[k] != '.' then
        assert forall k | 0 <= k < |p| - d :: p[d..][k] == p[d + k];
        p[d..]
      else []
  }

  /** The extensions Amazon Transcribe takes. */
  const SupportedExtensions: set<string> := {".mp3", ".wav", ".flac", ".ogg", ".m4a", ".mp4", ".mov"}

  /** The extension test of `is_transcribable_file`. */
  predicate HasSupportedExtension(p: string) {
    Lower(Extension(p)) in SupportedExtensions
  }

  /** A file `dir/stem.ext` has extension `.ext` as long as `stem` is not all dots. */
  lemma ExtensionOfName(dir: string, stem: string, ext: string, k: nat)
    requires '/' !in stem && '/' !in ext && '.' !in ext
    requires k < |stem| && stem[k] != '.'
    ensures Extension(dir + "/" + stem + "." + ext) == "." + ext
  {
    var p := dir + "/" + stem + "." + ext;
    var s, d := |dir|, |dir| + 1 + |stem|;
    assert p[s] == '/' && p[d] == '.';
    assert forall j | s < j < |p| :: p[j] == if j < d then stem[j - s - 1] else if j == d then '.' else ext[j - d - 1];
    LastIndexOfAt(p, '/', s);
    LastIndexOfAt(p, '.', d);
    assert p[s + 1 + k] != '.';
    assert p[d..] == "." + ext;
  }

  /** A hidden file `dir/.ext` has no extension at all. */
  lemma ExtensionOfHidden(dir: string, ext: string)
    requires '/' !in ext && '.' !in ext
    ensures Extension(dir + "/." + ext) == []
  {
    var p := dir + "/." + ext;
    var s := |dir|;
    assert p[s] == '/' && p[s + 1] == '.';
    assert forall j | s + 1 < j < |p| :: p[j] == ext[j - s - 2];
    LastIndexOfAt(p, '/', s);
    LastIndexOfAt(p, '.', s + 1);
  }

  /** For `dir/stem.ext` the test is whether `.ext`, lowercased, is a supported extension. */
  lemma SupportedOfName(dir: string, stem: string, ext: string, k: nat)
    requires '/' !in stem && '/' !in ext && '.' !in ext
    requires k < |stem| && stem[k] != '.'
    ensures HasSupportedExtension(dir + "/" + stem + "." + ext) <==> "." + Lower(ext) in SupportedExtensions
  {
    ExtensionOfName(dir, stem, ext, k);
    LowerAppend(".", ext);
    assert Lower(".") == ".";
  }

  /** A hidden file named after an extension is not taken. */
  lemma UnsupportedHidden()
    ensures !HasSupportedExtension("audio/.mp3")
  {
    ExtensionOfHidden("audio", "mp3");
    assert "audio/.mp3" == "audio" + "/." + "mp3";
  }

  /** A dot in a directory name is not an extension. */
  lemma UnsupportedDotInDirectory()
    ensures !HasSupportedExtension("a.mp3/talk")
  {
    var q := "a.mp3/talk";
    LastIndexOfAt(q, '/', 5);
    LastIndexOfAt(q, '.', 1);
  }
}
