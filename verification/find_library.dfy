/** `rcpputils::find_library_path`: resolve a bare library name to the first
    file of that name in the platform's dynamic-linker search path.

    Everything the function asks of the operating system is an explicit
    input: the value of the search-path variable, the current directory
    (`None` when the directory query returns 0, otherwise whatever its buffer
    holds), the string splitter, the path join and the regular-file probe. */
module FindLibrary {
  import opened Wrappers
  import FilesystemHelper

  /** The build target, chosen at compile time in the source. `Other` is the
      fallback branch: Linux and every target that is neither Windows nor Apple. */
  datatype Platform = Windows | Apple | Other

  /** The fixed per-platform settings: the variable holding the search path,
      the separator between its entries, and the affixes of a library file. */
  datatype Convention = Convention(pathVar: string, separator: char, prefix: string, extension: string)

  /** Joins a directory and a file name (`std::filesystem::path` operator `/`). */
  type Join = (string, string) -> string

  /** Splits a string at every occurrence of a separator. */
  type Split = (string, char) -> seq<string>

  function ConventionOf(p: Platform): Convention {
    match p
    case Windows => Convention("PATH", ';', "", ".dll")
    case Apple => Convention("DYLD_LIBRARY_PATH", ':', "lib", ".dylib")
    case Other => Convention("LD_LIBRARY_PATH", ':', "lib", ".so")
  }

  /** The file name probed for: `prefix + name + extension`. */
  function CandidateFilename(p: Platform, libraryName: string): string {
    ConventionOf(p).prefix + (libraryName + ConventionOf(p).extension)
  }

  /** The directories searched, in order: the split variable, preceded on
      Windows by the current directory when it could be obtained. */
  function SearchPaths(p: Platform, envValue: string, cwd: Option<string>, split: Split): seq<string> {
    var fromEnv := split(envValue, ConventionOf(p).separator);
    if p == Windows && cwd.Some? then [cwd.value] + fromEnv else fromEnv
  }

  /** Index of the first directory whose joined path passes the probe. */
  function FirstHit(dirs: seq<string>, filename: string, isFile: string -> bool, join: Join): (r: Option<nat>)
    ensures r.Some? ==> r.value < |dirs| && isFile(join(dirs[r.value], filename))
    ensures r.Some? ==> forall j :: 0 <= j < r.value ==> !isFile(join(dirs[j], filename))
    ensures r.None? <==> forall j :: 0 <= j < |dirs| ==> !isFile(join(dirs[j], filename))
  {
    if dirs == [] then None
    else if isFile(join(dirs[0], filename)) then Some(0)
    else match FirstHit(dirs[1..], filename, isFile, join)
      case None => None
      case Some(i) => Some(i + 1)
  }

  /** The string the search loop returns: the first hit's full path, or `""`. */
  function Resolve(dirs: seq<string>, filename: string, isFile: string -> bool, join: Join): (r: string)
    ensures r == "" || isFile(r)
    ensures r != "" ==> exists i :: 0 <= i < |dirs| && r == join(dirs[i], filename)
  {
    match FirstHit(dirs, filename, isFile, join)
    case None => ""
    case Some(i) => join(dirs[i], filename)
  }

  /** How many entries the search loop probes: up to and including the first
      hit, or all of them when none succeeds. */
  function ProbeCount(dirs: seq<string>, filename: string, isFile: string -> bool, join: Join): (n: nat)
    ensures n <= |dirs|
    ensures n < |dirs| ==> 0 < n && isFile(join(dirs[n - 1], filename))
    ensures forall j :: 0 <= j < n - 1 ==> !isFile(join(dirs[j], filename))
  {
    match FirstHit(dirs, filename, isFile, join)
    case None => |dirs|
    case Some(i) => i + 1
  }

  /** The range-`for` loop of `find_library_path`: probe each directory's join
      in order and return the first that passes, or `""`. The ghost `probed`
      lists the full paths handed to the probe, in order. */
  method SearchDirectories(searchPaths: seq<string>, filename: string, isFile: string -> bool, join: Join)
    returns (result: string, ghost probed: seq<string>)
    ensures result == Resolve(searchPaths, filename, isFile, join)
    ensures |probed| == ProbeCount(searchPaths, filename, isFile, join)
    ensures forall j :: 0 <= j < |probed| ==> probed[j] == join(searchPaths[j], filename)
  {
    probed := [];
    for k := 0 to |searchPaths|
      invariant |probed| == k
      invariant forall j :: 0 <= j < k ==> probed[j] == join(searchPaths[j], filename)
      invariant forall j :: 0 <= j < k ==> !isFile(join(searchPaths[j], filename))
    {
      var path := join(searchPaths[k], filename);
      probed := probed + [path];
      if isFile(path) {
        FirstMatchWins(searchPaths, filename, isFile, join, k);
        result := path;
        return;
      }
    }
    result := "";
  }

  /** `find_library_path`: build the search list (the current directory in
      front on Windows) and the file name, then search. */
  method FindLibraryPath(platform: Platform, libraryName: string, envValue: string, cwd: Option<string>,
                         split: Split, isFile: string -> bool, join: Join)
    returns (result: string, ghost probed: seq<string>)
    ensures result == Resolve(SearchPaths(platform, envValue, cwd, split),
                              CandidateFilename(platform, libraryName), isFile, join)
    ensures |probed| == ProbeCount(SearchPaths(platform, envValue, cwd, split),
                                   CandidateFilename(platform, libraryName), isFile, join)
    ensures forall j :: 0 <= j < |probed| ==>
              probed[j] == join(SearchPaths(platform, envValue, cwd, split)[j], CandidateFilename(platform, libraryName))
  {
    var convention := ConventionOf(platform);
    var searchPaths := split(envValue, convention.separator);
    if platform == Windows && cwd.Some? {
      searchPaths := [cwd.value] + searchPaths;
    }
    var filename := convention.prefix;
    filename := filename + (libraryName + convention.extension);
    assert searchPaths == SearchPaths(platform, envValue, cwd, split);
    assert filename == CandidateFilename(platform, libraryName);
    result, probed := SearchDirectories(searchPaths, filename, isFile, join);
  }

  /** Only Windows has an empty prefix and a ';' separator; the three
      extensions and variable names all differ; every extension is a single
      dot followed by a dot-free suffix. */
  lemma PlatformsDiffer(p: Platform, q: Platform)
    ensures ConventionOf(p).prefix == "" <==> p == Windows
    ensures ConventionOf(p).separator == ';' <==> p == Windows
    ensures p != q ==> ConventionOf(p).extension != ConventionOf(q).extension
    ensures p != q ==> ConventionOf(p).pathVar != ConventionOf(q).pathVar
    ensures var e := ConventionOf(p).extension; |e| > 0 && e[0] == '.' && '.' !in e[1..]
  {
  }

  /** The candidate file name starts with the prefix and ends with the
      extension, with the library name between them. */
  lemma CandidateFilenameShape(p: Platform, libraryName: string)
    ensures var f := CandidateFilename(p, libraryName);
            var c := ConventionOf(p);
            |f| == |c.prefix| + |libraryName| + |c.extension| &&
            f[..|c.prefix|] == c.prefix &&
            f[|c.prefix|..|c.prefix| + |libraryName|] == libraryName &&
            f[|c.prefix| + |libraryName|..] == c.extension
  {
  }

  /** Different library names never probe the same file name. */
  lemma CandidateFilenameInjective(p: Platform, a: string, b: string)
    requires CandidateFilename(p, a) == CandidateFilename(p, b)
    ensures a == b
  {
    CandidateFilenameShape(p, a);
    CandidateFilenameShape(p, b);
  }

  /** The platform extension is exactly one extension: removing one from the
      candidate file name leaves `prefix + name`, dots in the name or not. */
  lemma CandidateFilenameExtension(p: Platform, libraryName: string)
    ensures FilesystemHelper.RemoveExtensionSpec(CandidateFilename(p, libraryName), 1)
            == ConventionOf(p).prefix + libraryName
  {
    var c := ConventionOf(p);
    var stem := c.prefix + libraryName;
    PlatformsDiffer(p, p);
    assert CandidateFilename(p, libraryName) == stem + c.extension;
    FilesystemHelper.LastDotAppend(stem, c.extension);
    assert FilesystemHelper.LastDot(c.extension) == Some(0);
    assert (stem + c.extension)[..|stem|] == stem;
  }

  /** Examples of the file names probed on each platform. */
  lemma CandidateFilenameExamples()
    ensures CandidateFilename(Other, "foo") == "libfoo.so"
    ensures CandidateFilename(Apple, "foo") == "libfoo.dylib"
    ensures CandidateFilename(Windows, "foo") == "foo.dll"
    ensures CandidateFilename(Other, "") == "lib.so"
  {
  }

  /** Outside Windows the search list is the split variable, nothing added,
      and the current directory plays no part. */
  lemma NonWindowsSearchPaths(p: Platform, envValue: string, cwd: Option<string>, split: Split)
    requires p != Windows
    ensures SearchPaths(p, envValue, cwd, split) == split(envValue, ':')
  {
  }

  /** On Windows the current directory, when obtained, comes first and the
      split variable follows unchanged; otherwise the list is the split
      variable alone. */
  lemma WindowsSearchPaths(envValue: string, cwd: Option<string>, split: Split)
    ensures var dirs := SearchPaths(Windows, envValue, cwd, split);
            if cwd.Some? then |dirs| > 0 && dirs[0] == cwd.value && dirs[1..] == split(envValue, ';')
            else dirs == split(envValue, ';')
  {
  }

  /** The result is `""` exactly when no directory's probe succeeds, given
      that a join never produces the empty path. */
  lemma NotFoundIffEmpty(dirs: seq<string>, filename: string, isFile: string -> bool, join: Join)
    requires forall d :: join(d, filename) != ""
    ensures Resolve(dirs, filename, isFile, join) == "" <==>
            forall j :: 0 <= j < |dirs| ==> !isFile(join(dirs[j], filename))
  {
  }

  /** The entry at the smallest index whose probe succeeds gives the result. */
  lemma FirstMatchWins(dirs: seq<string>, filename: string, isFile: string -> bool, join: Join, i: nat)
    requires i < |dirs| && isFile(join(dirs[i], filename))
    requires forall j :: 0 <= j < i ==> !isFile(join(dirs[j], filename))
    ensures FirstHit(dirs, filename, isFile, join) == Some(i)
    ensures Resolve(dirs, filename, isFile, join) == join(dirs[i], filename)
  {
  }

  /** Entries after the first match are irrelevant: replacing them changes
      nothing. */
  lemma LaterEntriesIgnored(dirs: seq<string>, rest: seq<string>, filename: string, isFile: string -> bool, join: Join, i: nat)
    requires FirstHit(dirs, filename, isFile, join) == Some(i)
    ensures Resolve(dirs[..i + 1] + rest, filename, isFile, join) == Resolve(dirs, filename, isFile, join)
  {
    FirstMatchWins(dirs[..i + 1] + rest, filename, isFile, join, i);
  }

  /** On Windows a library in the current directory is found there, whatever
      the search-path variable holds. */
  lemma WindowsCwdFirst(libraryName: string, envValue: string, cwd: string,
                        split: Split, isFile: string -> bool, join: Join)
    requires isFile(join(cwd, CandidateFilename(Windows, libraryName)))
    ensures Resolve(SearchPaths(Windows, envValue, Some(cwd), split), CandidateFilename(Windows, libraryName), isFile, join)
            == join(cwd, CandidateFilename(Windows, libraryName))
  {
  }

  /** Outside Windows, a search-path variable that splits into no entries
      finds nothing. */
  lemma NonWindowsEmptyPath(p: Platform, libraryName: string, envValue: string, cwd: Option<string>,
                            split: Split, isFile: string -> bool, join: Join)
    requires p != Windows && split(envValue, ':') == []
    ensures Resolve(SearchPaths(p, envValue, cwd, split), CandidateFilename(p, libraryName), isFile, join) == ""
  {
  }

  /** The answer depends on the probe only at the paths the search consults,
      up to and including the first hit: a second probe that agrees there
      gives the same answer, whatever it says about later entries. */
  lemma OnlyProbedPathsMatter(dirs: seq<string>, filename: string, isFile: string -> bool,
                              isFile': string -> bool, join: Join)
    requires var hit := FirstHit(dirs, filename, isFile, join);
             forall j :: 0 <= j < |dirs| && (hit.None? || j <= hit.value) ==>
               isFile(join(dirs[j], filename)) == isFile'(join(dirs[j], filename))
    ensures FirstHit(dirs, filename, isFile, join) == FirstHit(dirs, filename, isFile', join)
  {
  }
}
