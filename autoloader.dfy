/**
 * The runtime resolver of src/Autoloader.php. An `Autoloader` owns one namespace
 * prefix and one folder; constructing it registers it with the host's autoload
 * callback list. Asked for a class, it declines names outside its namespace,
 * derives exactly one file path from the class name and loads that file, or
 * throws when the file does not exist.
 *
 * The host PHP runtime is an explicit `Host` object: the ordered autoload
 * callback list (`spl_autoload_register`), the set of paths `file_exists`
 * reports, and the files already `require_once`d. Paths are compared as plain
 * strings, with no path normalisation.
 */
module ClassAutoloader {
  import opened Wrappers
  import opened Text

  /** The exception `file_path` throws: the class name with the namespace removed, and the path it looked for. */
  datatype NotFound = NotFound(className: string, path: string)

  /** What one call of `autoload` does. */
  datatype Outcome =
    | Declined               // the class is outside the namespace: nothing computed, nothing loaded
    | Loaded(path: string)   // the derived file exists and was `require_once`d
    | Thrown(error: NotFound)

  /**
   * `ltrim($namespace, '\\')`: the namespace without its leading backslashes.
   * The result is no longer than the namespace and does not start with a
   * backslash. It is written out for the one-character mask rather than taken
   * from `Text.LTrim`, so that the proofs about loaders reason about a single
   * character test; `StoredNamespaceIsLTrim` proves the two equal.
   */
  function StoredNamespace(namespace: string): (r: string)
    ensures |r| <= |namespace|
    ensures r == [] || r[0] != '\\'
  {
    if namespace != [] && namespace[0] == '\\' then StoredNamespace(namespace[1..]) else namespace
  }

  /** The stored namespace is `ltrim` with the one-character mask `\`. */
  lemma {:induction false} StoredNamespaceIsLTrim(namespace: string)
    ensures StoredNamespace(namespace) == LTrim(namespace, {'\\'})
  {
    if namespace != [] && namespace[0] == '\\' {
      StoredNamespaceIsLTrim(namespace[1..]);
    }
  }

  // ---- the name-to-path derivation of `file_path` ----

  /** The character map of `str_replace(['\\', '_'], ['/', '-'], ...)` followed by `strtolower`. */
  function NormalChar(c: char): char
  {
    LowerChar(if c == '\\' then '/' else if c == '_' then '-' else c)
  }

  /** `strtolower(str_replace(array('\\', '_'), array('/', '-'), s))`. */
  function Normalize(s: string): string
  {
    Lower(ReplaceAll(ReplaceAll(s, "\\", "/"), "_", "-"))
  }

  /** The class name with every occurrence of the namespace removed (`str_replace($this->namespace, '', $class)`). */
  function Stripped(namespace: string, cls: string): string
  {
    ReplaceAll(cls, namespace, "")
  }

  /** `explode('\\', ...)` of the stripped class name: never empty. */
  function Segments(rest: string): (r: seq<string>)
    ensures |r| >= 1
  {
    Split(rest, '\\')
  }

  /** The popped last segment: the class's local name. */
  function LocalName(rest: string): string
  {
    var parts := Segments(rest);
    parts[|parts| - 1]
  }

  /** The segments left after the pop: the sub-namespace. */
  function SubNamespace(rest: string): seq<string>
  {
    var parts := Segments(rest);
    parts[..|parts| - 1]
  }

  /**
   * The file name before normalising: the name kept whole and followed by
   * `.php`, with the prefix `class-` exactly when the name starts with neither
   * `Interface` nor `Trait`.
   */
  function FileName(name: string): (r: string)
    ensures StartsWith(r, "class-") <==> !(StartsWith(name, "Interface") || StartsWith(name, "Trait"))
    ensures |r| >= |name| + 4 && r[|r| - 4 - |name|..] == name + ".php"
    ensures |r| == |name| + (if StartsWith(name, "Interface") || StartsWith(name, "Trait") then 4 else 10)
  {
    if StartsWith(name, "Interface") || StartsWith(name, "Trait") then
      OwnFileName(name);
      name + ".php"
    else
      PrefixedFileName(name);
      "class-" + name + ".php"
  }

  lemma OwnFileName(name: string)
    requires StartsWith(name, "Interface") || StartsWith(name, "Trait")
    ensures var r := name + ".php";
            !StartsWith(r, "class-") && r[|r| - 4 - |name|..] == name + ".php"
  {
    var r := name + ".php";
    assert name[0] == 'I' || name[0] == 'T' by {
      if StartsWith(name, "Interface") {
        assert name[..9][0] == 'I';
      } else {
        assert name[..5][0] == 'T';
      }
    }
    assert r[0] == name[0];
    FirstCharDiffers(r, "class-");
  }

  lemma PrefixedFileName(name: string)
    ensures var r := "class-" + name + ".php";
            StartsWith(r, "class-") && r[|r| - 4 - |name|..] == name + ".php"
  {
    var r := "class-" + name + ".php";
    assert r[..6] == "class-";
    assert r[6..] == name + ".php";
  }

  /** The sub-namespace joined by `/`, then `/` and the file name, normalised. */
  function RelativePath(rest: string): string
  {
    Normalize(Join(SubNamespace(rest), "/") + "/" + FileName(LocalName(rest)))
  }

  /** No ASCII upper-case letter, no `_` and no `\` in the path. */
  predicate PathChars(path: string)
  {
    forall i :: 0 <= i < |path| ==> !('A' <= path[i] <= 'Z') && path[i] != '_' && path[i] != '\\'
  }

  /**
   * `$local_path` of `file_path`: a `.php` path holding no ASCII upper-case
   * letter, no `_` and no `\`.
   */
  function LocalPath(namespace: string, cls: string): (r: string)
    ensures PathChars(r)
    ensures |r| >= 4 && r[|r| - 4..] == ".php"
  {
    var rest := Stripped(namespace, cls);
    RelativePathShape(rest);
    RelativePath(rest)
  }

  lemma RelativePathShape(rest: string)
    ensures var r := RelativePath(rest);
            PathChars(r) && |r| >= 4 && r[|r| - 4..] == ".php"
  {
    var file := FileName(LocalName(rest));
    var head := Join(SubNamespace(rest), "/") + "/" + file[..|file| - 4];
    assert Join(SubNamespace(rest), "/") + "/" + file == head + ".php";
    NormalizeConcat(head, ".php");
    NormalizePhp();
    NormalizeShape(head + ".php");
  }

  /** The normalisation keeps the length and leaves no ASCII upper-case letter, no `_` and no `\`. */
  lemma NormalizeShape(s: string)
    ensures |Normalize(s)| == |s|
    ensures forall i :: 0 <= i < |Normalize(s)| ==>
              !('A' <= Normalize(s)[i] <= 'Z') && Normalize(s)[i] != '_' && Normalize(s)[i] != '\\'
  {
    NormalizeIsMap(s);
    forall i | 0 <= i < |s|
      ensures Normalize(s)[i] == NormalChar(s[i])
    {
    }
  }

  lemma NormalizePhp()
    ensures Normalize(".php") == ".php"
  {
    NormalizeIsMap(".php");
    assert MapChars(".php", NormalChar) == ".php";
  }

  /** `$this->folder . '/' . $local_path`: a `.php` file under the folder. */
  function CandidatePath(namespace: string, folder: string, cls: string): (r: string)
    ensures |r| > |folder| + 4 && r[..|folder|] == folder && r[|folder|] == '/'
    ensures r[|r| - 4..] == ".php"
  {
    folder + "/" + LocalPath(namespace, cls)
  }

  // ---- the host runtime ----

  /** No callback occurs twice. */
  predicate Distinct(loaders: seq<Autoloader>)
  {
    forall i, j :: 0 <= i < j < |loaders| ==> loaders[i] != loaders[j]
  }

  class Host {
    /** The autoload callbacks, in registration order. */
    var callbacks: seq<Autoloader>
    /** The paths `file_exists` reports as existing. */
    var files: set<string>
    /** The files loaded through `require_once`, in load order. */
    var required: seq<string>

    constructor (files: set<string>)
      ensures callbacks == [] && this.files == files && required == []
    {
      callbacks := [];
      this.files := files;
      required := [];
    }

    /** `spl_autoload_register`: appends the callback unless it is already registered. */
    method Register(loader: Autoloader)
      modifies this`callbacks
      ensures callbacks == if loader in old(callbacks) then old(callbacks) else old(callbacks) + [loader]
      ensures Distinct(old(callbacks)) ==> Distinct(callbacks)
    {
      if loader !in callbacks {
        callbacks := callbacks + [loader];
      }
    }

    /** `require_once`: loads a path unless it was loaded before. */
    method RequireOnce(path: string)
      modifies this`required
      ensures required == if path in old(required) then old(required) else old(required) + [path]
    {
      if path !in required {
        required := required + [path];
      }
    }
  }

  // ---- the resolver ----

  class Autoloader {
    const namespace: string
    const folder: string

    /** Stores the namespace without its leading backslashes and the folder as given, then registers itself. */
    constructor (namespace: string, folder: string, host: Host)
      modifies host`callbacks
      ensures this.namespace == StoredNamespace(namespace) && this.folder == folder
      ensures host.callbacks == old(host.callbacks) + [this]
    {
      this.namespace := StoredNamespace(namespace);
      this.folder := folder;
      new;
      host.Register(this);
    }

    /** `file_path`: the one derived path if it exists, else the not-found exception. */
    function FilePath(cls: string, files: set<string>): (r: Result<string, NotFound>)
      ensures r.Success? <==> CandidatePath(namespace, folder, cls) in files
      ensures r.Success? ==> r.value in files && StartsWith(r.value, folder + "/")
                             && r.value[|folder| + 1..] == LocalPath(namespace, cls)
      ensures r.Failure? ==> r.error == NotFound(Stripped(namespace, cls), CandidatePath(namespace, folder, cls))
    {
      var path := CandidatePath(namespace, folder, cls);
      if path in files then Success(path) else Failure(NotFound(Stripped(namespace, cls), path))
    }

    /** `autoload`: the prefix guard, then `file_path`, then `require_once` of the path it returns. */
    method Autoload(cls: string, host: Host) returns (r: Outcome)
      modifies host`required
      ensures !StartsWith(cls, namespace) ==> r == Declined
      ensures StartsWith(cls, namespace) ==>
                match FilePath(cls, host.files)
                case Success(p) => r == Loaded(p)
                case Failure(e) => r == Thrown(e)
      ensures host.required == if r.Loaded? && r.path !in old(host.required)
                               then old(host.required) + [r.path] else old(host.required)
    {
      if !StartsWith(cls, namespace) {
        return Declined;
      }
      var found := FilePath(cls, host.files);
      match found
      case Failure(e) =>
        return Thrown(e);
      case Success(p) =>
        host.RequireOnce(p);
        return Loaded(p);
    }
  }

  // ---- what the derivation promises ----

  /** The normalisation is a character-by-character map. */
  lemma NormalizeIsMap(s: string)
    ensures Normalize(s) == MapChars(s, NormalChar)
  {
    ReplaceCharIsMap(s, '\\', '/');
    var s1 := ReplaceAll(s, "\\", "/");
    ReplaceCharIsMap(s1, '_', '-');
    var s2 := ReplaceAll(s1, "_", "-");
    assert forall i :: 0 <= i < |s| ==> Lower(s2)[i] == NormalChar(s[i]);
  }

  /** The directories a relative path names: the sub-namespace, or one empty segment when there is none. */
  function Directories(rest: string): seq<string>
  {
    var sub := SubNamespace(rest);
    if sub == [] then [""] else sub
  }

  /**
   * Splitting the derived path at `/` gives the sub-namespace segments in order,
   * each normalised, and then the normalised file name. For a class directly
   * under the namespace the one directory is empty, so the path holds `//`.
   */
  lemma {:induction false} RelativePathSegments(rest: string)
    requires '/' !in rest
    ensures var dirs := Directories(rest);
            Split(RelativePath(rest), '/')
              == seq(|dirs|, k requires 0 <= k < |dirs| => Normalize(dirs[k]))
                 + [Normalize(FileName(LocalName(rest)))]
  {
    var sub := SubNamespace(rest);
    var file := FileName(LocalName(rest));
    var dirs := Directories(rest);
    var parts := dirs + [file];
    if sub == [] {
      assert Join(sub, "/") + "/" + file == Join(parts, "/");
    } else {
      JoinSnoc(sub, "/", file);
    }
    SegmentsHaveNoSlash(rest);
    FileNameHasNoSlash(LocalName(rest));
    NoSlashParts(dirs, file);
    SplitNormalizedJoin(parts);
    NormalizeSnoc(dirs, file);
  }

  /** A name without `/` or `\` gives a file name without them. */
  lemma FileNameHasNoSlash(name: string)
    requires '/' !in name && '\\' !in name
    ensures '/' !in FileName(name) && '\\' !in FileName(name)
  {
    if StartsWith(name, "Interface") || StartsWith(name, "Trait") {
      assert FileName(name) == name + ".php";
    } else {
      assert FileName(name) == "class-" + name + ".php";
    }
  }

  lemma NoSlashParts(dirs: seq<string>, file: string)
    requires forall k :: 0 <= k < |dirs| ==> '/' !in dirs[k] && '\\' !in dirs[k]
    requires '/' !in file && '\\' !in file
    ensures forall k :: 0 <= k < |dirs + [file]| ==> '/' !in (dirs + [file])[k] && '\\' !in (dirs + [file])[k]
  {
  }

  lemma NormalizeSnoc(dirs: seq<string>, file: string)
    ensures seq(|dirs + [file]|, k requires 0 <= k < |dirs + [file]| => Normalize((dirs + [file])[k]))
         == seq(|dirs|, k requires 0 <= k < |dirs| => Normalize(dirs[k])) + [Normalize(file)]
  {
  }

  /** For a class name without `/`, the local path of `file_path` splits into its normalised directories and file name. */
  lemma LocalPathSegments(namespace: string, cls: string)
    requires '/' !in cls
    ensures var rest := Stripped(namespace, cls);
            var dirs := Directories(rest);
            Split(LocalPath(namespace, cls), '/')
              == seq(|dirs|, k requires 0 <= k < |dirs| => Normalize(dirs[k]))
                 + [Normalize(FileName(LocalName(rest)))]
  {
    if '/' in Stripped(namespace, cls) {
      RemoveKeepsChars(cls, namespace, '/');
    }
    RelativePathSegments(Stripped(namespace, cls));
  }

  /** Normalising `/`-joined parts that hold no `/` or `\` and splitting again gives the parts, each normalised. */
  lemma SplitNormalizedJoin(parts: seq<string>)
    requires |parts| >= 1
    requires forall k :: 0 <= k < |parts| ==> '/' !in parts[k] && '\\' !in parts[k]
    ensures Split(Normalize(Join(parts, "/")), '/') == seq(|parts|, k requires 0 <= k < |parts| => Normalize(parts[k]))
  {
    var normalized := NormalizedParts(parts);
    MapJoin(parts, '/', NormalChar);
    NormalizeIsMap(Join(parts, "/"));
    SplitJoin(normalized, '/');
  }

  /** Mapping each part through the normalisation character by character normalises it, and leaves no `/`. */
  lemma NormalizedParts(parts: seq<string>) returns (normalized: seq<string>)
    requires forall k :: 0 <= k < |parts| ==> '/' !in parts[k] && '\\' !in parts[k]
    ensures normalized == seq(|parts|, k requires 0 <= k < |parts| => Normalize(parts[k]))
    ensures normalized == seq(|parts|, k requires 0 <= k < |parts| => MapChars(parts[k], NormalChar))
    ensures forall k :: 0 <= k < |normalized| ==> '/' !in normalized[k]
  {
    normalized := seq(|parts|, k requires 0 <= k < |parts| => Normalize(parts[k]));
    var mapped := seq(|parts|, k requires 0 <= k < |parts| => MapChars(parts[k], NormalChar));
    forall k | 0 <= k < |parts|
      ensures mapped[k] == normalized[k] && '/' !in normalized[k]
    {
      NormalizedHasNoSlash(parts[k]);
    }
  }

  lemma NormalizedHasNoSlash(x: string)
    requires '/' !in x && '\\' !in x
    ensures Normalize(x) == MapChars(x, NormalChar) && '/' !in Normalize(x)
  {
    NormalizeIsMap(x);
    var y := MapChars(x, NormalChar);
    forall i | 0 <= i < |y|
      ensures y[i] != '/'
    {
      assert y[i] == NormalChar(x[i]);
    }
  }

  /** No segment holds `\\`, and none holds `/` unless the name does. */
  lemma SegmentsHaveNoSlash(rest: string)
    requires '/' !in rest
    ensures forall k :: 0 <= k < |Segments(rest)| ==> '/' !in Segments(rest)[k] && '\\' !in Segments(rest)[k]
  {
    var parts := Segments(rest);
    forall k | 0 <= k < |parts|
      ensures '/' !in parts[k]
    {
      if '/' in parts[k] {
        PartInJoin(parts, "\\", k, '/');
        JoinSplit(rest, '\\');
      }
    }
  }

  /** When the namespace leads the class name and does not occur again, exactly the leading copy is removed. */
  lemma StrippedLeading(namespace: string, cls: string)
    requires namespace != [] && StartsWith(cls, namespace) && !Occurs(cls[|namespace|..], namespace)
    ensures Stripped(namespace, cls) == cls[|namespace|..]
  {
    ReplaceAbsent(cls[|namespace|..], namespace, "");
  }

  /** Normalising a concatenation normalises each side. */
  lemma NormalizeConcat(a: string, b: string)
    ensures Normalize(a + b) == Normalize(a) + Normalize(b)
  {
    NormalizeIsMap(a + b);
    NormalizeIsMap(a);
    NormalizeIsMap(b);
    MapConcat(a, b, NormalChar);
  }

  // ---- removing the namespace only where it leads the name ----

  /**
   * The local path derived from the class name with only its leading namespace
   * removed, which `autoload`'s prefix guard evidently intends; `file_path`
   * removes every occurrence instead.
   */
  function IntendedLocalPath(namespace: string, cls: string): string
    requires StartsWith(cls, namespace)
  {
    RelativePath(cls[|namespace|..])
  }

  /** `$this->folder . '/'` followed by the prefix-only local path. */
  function IntendedCandidatePath(namespace: string, folder: string, cls: string): string
    requires StartsWith(cls, namespace)
  {
    folder + "/" + IntendedLocalPath(namespace, cls)
  }

  /**
   * With prefix-only removal, every segment of the class name after the
   * namespace becomes one directory of the path, in order.
   */
  lemma IntendedPathSegments(namespace: string, cls: string)
    requires StartsWith(cls, namespace) && '/' !in cls
    ensures var rest := cls[|namespace|..];
            var dirs := Directories(rest);
            Split(IntendedLocalPath(namespace, cls), '/')
              == seq(|dirs|, k requires 0 <= k < |dirs| => Normalize(dirs[k]))
                 + [Normalize(FileName(LocalName(rest)))]
  {
    RelativePathSegments(cls[|namespace|..]);
  }

  /** Where the namespace does not occur again after its leading copy, `file_path` derives the intended path. */
  lemma IntendedAgrees(namespace: string, folder: string, cls: string)
    requires namespace != [] && StartsWith(cls, namespace) && !Occurs(cls[|namespace|..], namespace)
    ensures LocalPath(namespace, cls) == IntendedLocalPath(namespace, cls)
    ensures CandidatePath(namespace, folder, cls) == IntendedCandidatePath(namespace, folder, cls)
  {
    StrippedLeading(namespace, cls);
  }
}
