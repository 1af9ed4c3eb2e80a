/**
 The module loader (runtime/src/loader.rs): resolution by probing the file system, and a cache
 that trusts an entry while the file's modification time has not passed the cached one.
 */
module Loader {
  import opened Prelude

  type Path = string
  type Time = nat

  /** What is at a path; a file whose text cannot be read has no content. */
  datatype Node = File(content: Option<string>, mtime: Time) | Dir(mtime: Time)

  type FileSystem = map<Path, Node>

  datatype Reason = Missing | Unreadable

  datatype LoadError =
    | ModuleNotFound(specifier: string)
    | ModuleLoadFailed(specifier: string, reason: Reason)
    | TranspileFailed(path: Path)

  datatype Module = Module(specifier: string, resolvedPath: Path, source: string, wasTranspiled: bool)

  /** Path arithmetic and the transpiler, as parameters of the loader. */
  datatype Host = Host(
    parent: Path -> Option<Path>,
    join: (Path, string) -> Path,
    withSuffix: (Path, string) -> Path,
    needsTranspile: Path -> bool,
    transpile: (string, Path) -> Option<string>)

  const EXTENSIONS: seq<string> := ["", ".ts", ".js", ".mts", ".mjs", ".tsx", ".jsx"]
  const INDEX_EXTENSIONS: seq<string> := [".ts", ".js", ".mts", ".mjs"]

  predicate IsFile(fs: FileSystem, p: Path) {
    p in fs && fs[p].File?
  }

  predicate IsDir(fs: FileSystem, p: Path) {
    p in fs && fs[p].Dir?
  }

  // ---------- Resolution ----------

  function Candidate(h: Host, base: Path, ext: string): Path {
    if ext == "" then base else h.withSuffix(base, ext)
  }

  /** One place a module may be found: a file, or something named index inside a directory. */
  datatype Place = FileAt(path: Path) | IndexIn(dir: Path, path: Path)

  predicate Hit(fs: FileSystem, place: Place) {
    match place
    case FileAt(p) => IsFile(fs, p)
    case IndexIn(dir, p) => IsDir(fs, dir) && p in fs
  }

  function IndexPlaces(h: Host, dir: Path, from: nat): seq<Place>
    requires from <= |INDEX_EXTENSIONS|
    decreases |INDEX_EXTENSIONS| - from
  {
    if from == |INDEX_EXTENSIONS| then []
    else [IndexIn(dir, h.join(dir, "index" + INDEX_EXTENSIONS[from]))] + IndexPlaces(h, dir, from + 1)
  }

  /** Where probing looks for one candidate: the file itself, then its index files. */
  function CandidatePlaces(h: Host, c: Path): seq<Place> {
    [FileAt(c)] + IndexPlaces(h, c, 0)
  }

  /** The places tried from extension number `from` on, in order. */
  function Places(h: Host, base: Path, exts: seq<string>, from: nat): seq<Place>
    requires from <= |exts|
    decreases |exts| - from
  {
    if from == |exts| then []
    else CandidatePlaces(h, Candidate(h, base, exts[from])) + Places(h, base, exts, from + 1)
  }

  ghost predicate NoHitBefore(fs: FileSystem, places: seq<Place>, i: nat)
    requires i <= |places|
  {
    forall j :: 0 <= j < i ==> !Hit(fs, places[j])
  }

  /** The path of the first place that hits. */
  function FirstHit(fs: FileSystem, places: seq<Place>): Option<Path> {
    if |places| == 0 then None
    else if Hit(fs, places[0]) then Some(places[0].path)
    else FirstHit(fs, places[1..])
  }

  lemma {:induction false} FirstHitAppend(fs: FileSystem, a: seq<Place>, b: seq<Place>)
    ensures FirstHit(fs, a + b) == if FirstHit(fs, a).Some? then FirstHit(fs, a) else FirstHit(fs, b)
  {
    if |a| == 0 {
      assert a + b == b;
    } else {
      FirstHitAppend(fs, a[1..], b);
      assert (a + b)[1..] == a[1..] + b;
    }
  }

  lemma {:induction false} FirstHitIsFirst(fs: FileSystem, places: seq<Place>)
    ensures FirstHit(fs, places).None? <==> NoHitBefore(fs, places, |places|)
    ensures FirstHit(fs, places).Some? ==>
      exists i: nat :: i < |places| && Hit(fs, places[i]) && places[i].path == FirstHit(fs, places).value
        && NoHitBefore(fs, places, i)
  {
    if |places| > 0 && !Hit(fs, places[0]) {
      var rest := places[1..];
      FirstHitIsFirst(fs, rest);
      assert forall j :: 0 <= j < |rest| ==> rest[j] == places[j + 1];
      assert forall j :: 0 < j < |places| ==> places[j] == rest[j - 1];
      if FirstHit(fs, rest).Some? {
        var i: nat :| i < |rest| && Hit(fs, rest[i]) && rest[i].path == FirstHit(fs, rest).value && NoHitBefore(fs, rest, i);
        assert NoHitBefore(fs, places, i + 1);
      }
    } else if |places| > 0 {
      assert NoHitBefore(fs, places, 0);
    }
  }

  function Probed(h: Host, fs: FileSystem, base: Path): Result<Path, LoadError> {
    match FirstHit(fs, Places(h, base, EXTENSIONS, 0))
    case Some(p) => Success(p)
    case None => Failure(ModuleNotFound(base))
  }

  lemma ProbeRound(h: Host, fs: FileSystem, base: Path, exts: seq<string>, k: nat)
    requires k < |exts|
    ensures var here := FirstHit(fs, CandidatePlaces(h, Candidate(h, base, exts[k])));
      FirstHit(fs, Places(h, base, exts, k)) == if here.Some? then here else FirstHit(fs, Places(h, base, exts, k + 1))
  {
    FirstHitAppend(fs, CandidatePlaces(h, Candidate(h, base, exts[k])), Places(h, base, exts, k + 1));
  }

  lemma CandidateRound(h: Host, fs: FileSystem, c: Path)
    ensures FirstHit(fs, CandidatePlaces(h, c)) == if IsFile(fs, c) then Some(c) else FirstHit(fs, IndexPlaces(h, c, 0))
  {
    FirstHitAppend(fs, [FileAt(c)], IndexPlaces(h, c, 0));
  }

  lemma IndexRound(h: Host, fs: FileSystem, dir: Path, j: nat)
    requires j < |INDEX_EXTENSIONS| && IsDir(fs, dir)
    ensures var idx := h.join(dir, "index" + INDEX_EXTENSIONS[j]);
      FirstHit(fs, IndexPlaces(h, dir, j)) ==
        if idx in fs then Some(idx) else FirstHit(fs, IndexPlaces(h, dir, j + 1))
  {
    var idx := h.join(dir, "index" + INDEX_EXTENSIONS[j]);
    FirstHitAppend(fs, [IndexIn(dir, idx)], IndexPlaces(h, dir, j + 1));
  }

  lemma {:induction false} NoIndexOutsideDirectories(h: Host, fs: FileSystem, p: Path, j: nat)
    requires j <= |INDEX_EXTENSIONS| && !IsDir(fs, p)
    ensures FirstHit(fs, IndexPlaces(h, p, j)).None?
    decreases |INDEX_EXTENSIONS| - j
  {
    if j < |INDEX_EXTENSIONS| {
      NoIndexOutsideDirectories(h, fs, p, j + 1);
      FirstHitAppend(fs, [IndexIn(p, h.join(p, "index" + INDEX_EXTENSIONS[j]))], IndexPlaces(h, p, j + 1));
    }
  }

  lemma BaseComesFirst(h: Host, fs: FileSystem, base: Path)
    requires IsFile(fs, base)
    ensures Probed(h, fs, base) == Success(base)
  {
    ProbeRound(h, fs, base, EXTENSIONS, 0);
    CandidateRound(h, fs, base);
  }

  /** The inner loop of probing: the index files of a directory, in order. */
  method ProbeIndex(h: Host, fs: FileSystem, dir: Path) returns (r: Option<Path>)
    requires IsDir(fs, dir)
    ensures r == FirstHit(fs, IndexPlaces(h, dir, 0))
  {
    for j := 0 to |INDEX_EXTENSIONS|
      invariant FirstHit(fs, IndexPlaces(h, dir, j)) == FirstHit(fs, IndexPlaces(h, dir, 0))
    {
      IndexRound(h, fs, dir, j);
      var idx := h.join(dir, "index" + INDEX_EXTENSIONS[j]);
      if idx in fs {
        return Some(idx);
      }
    }
    r := None;
  }

  method ProbeCandidate(h: Host, fs: FileSystem, c: Path) returns (r: Option<Path>)
    ensures r == FirstHit(fs, CandidatePlaces(h, c))
  {
    CandidateRound(h, fs, c);
    if IsFile(fs, c) {
      return Some(c);
    }
    if IsDir(fs, c) {
      r := ProbeIndex(h, fs, c);
    } else {
      NoIndexOutsideDirectories(h, fs, c, 0);
      r := None;
    }
  }

  /** The outer loop of probing: the candidates, extension by extension. */
  method ProbeEach(h: Host, fs: FileSystem, base: Path, exts: seq<string>) returns (r: Option<Path>)
    ensures r == FirstHit(fs, Places(h, base, exts, 0))
  {
    for k := 0 to |exts|
      invariant FirstHit(fs, Places(h, base, exts, k)) == FirstHit(fs, Places(h, base, exts, 0))
    {
      ProbeRound(h, fs, base, exts, k);
      r := ProbeCandidate(h, fs, Candidate(h, base, exts[k]));
      if r.Some? {
        return;
      }
    }
    r := None;
  }

  method ProbeExtensions(h: Host, fs: FileSystem, base: Path) returns (r: Result<Path, LoadError>)
    ensures r == Probed(h, fs, base)
  {
    if IsFile(fs, base) {
      BaseComesFirst(h, fs, base);
      return Success(base);
    }
    var found := ProbeEach(h, fs, base, EXTENSIONS);
    r := if found.Some? then Success(found.value) else Failure(ModuleNotFound(base));
  }

  function Resolved(h: Host, baseDir: Path, fs: FileSystem, specifier: string, referrer: Option<Path>): Result<Path, LoadError> {
    if "/" <= specifier then Probed(h, fs, specifier)
    else if "./" <= specifier || "../" <= specifier then
      var parent := if referrer.Some? then h.parent(referrer.value) else None;
      Probed(h, fs, h.join(if parent.Some? then parent.value else baseDir, specifier))
    else if "bua:" <= specifier then Success("__bua_builtin__/" + specifier[4..])
    else Failure(ModuleNotFound(specifier))
  }

  // ---------- What resolution depends on ----------

  /** The path is where the first place that hits is. */
  ghost predicate FoundAt(fs: FileSystem, places: seq<Place>, path: Path) {
    exists i: nat :: i < |places| && Hit(fs, places[i]) && places[i].path == path && NoHitBefore(fs, places, i)
  }

  /** The result of looking in some places: where the first hit is, or that there is none. */
  ghost predicate IsSearch(fs: FileSystem, places: seq<Place>, base: Path, r: Result<Path, LoadError>) {
    match r
    case Success(path) => FoundAt(fs, places, path)
    case Failure(e) => e == ModuleNotFound(base) && NoHitBefore(fs, places, |places|)
  }

  /** The result of looking in the places of a base. */
  ghost predicate IsLookup(h: Host, fs: FileSystem, base: Path, r: Result<Path, LoadError>) {
    IsSearch(fs, Places(h, base, EXTENSIONS, 0), base, r)
  }

  lemma FirstHitIsSearch(fs: FileSystem, places: seq<Place>, base: Path)
    ensures IsSearch(fs, places, base,
      if FirstHit(fs, places).Some? then Success(FirstHit(fs, places).value) else Failure(ModuleNotFound(base)))
  {
    FirstHitIsFirst(fs, places);
  }

  lemma ProbedIsLookup(h: Host, fs: FileSystem, base: Path)
    ensures IsLookup(h, fs, base, Probed(h, fs, base))
  {
    FirstHitIsSearch(fs, Places(h, base, EXTENSIONS, 0), base);
  }

  predicate IsRelative(specifier: string) {
    "./" <= specifier || "../" <= specifier
  }

  lemma RelativeIsProbed(h: Host, baseDir: Path, fs: FileSystem, specifier: string, referrer: Option<Path>)
    requires IsRelative(specifier)
    ensures var parent := if referrer.Some? then h.parent(referrer.value) else None;
      Resolved(h, baseDir, fs, specifier, referrer)
        == Probed(h, fs, h.join(if parent.Some? then parent.value else baseDir, specifier))
  {
    assert specifier[0] == '.';
  }

  /** A relative specifier is looked up beside the module that imports it. */
  lemma RelativeToReferrer(h: Host, baseDir: Path, fs: FileSystem, specifier: string, referrer: Path, parent: Path)
    requires IsRelative(specifier) && h.parent(referrer) == Some(parent)
    ensures IsLookup(h, fs, h.join(parent, specifier), Resolved(h, baseDir, fs, specifier, Some(referrer)))
  {
    RelativeIsProbed(h, baseDir, fs, specifier, Some(referrer));
    ProbedIsLookup(h, fs, h.join(parent, specifier));
  }

  /** With nothing to be beside, it is looked up in the base directory. */
  lemma RelativeToBase(h: Host, baseDir: Path, fs: FileSystem, specifier: string, referrer: Option<Path>)
    requires IsRelative(specifier) && (referrer.None? || h.parent(referrer.value).None?)
    ensures IsLookup(h, fs, h.join(baseDir, specifier), Resolved(h, baseDir, fs, specifier, referrer))
  {
    RelativeIsProbed(h, baseDir, fs, specifier, referrer);
    ProbedIsLookup(h, fs, h.join(baseDir, specifier));
  }

  /** An absolute specifier is looked up as it stands, whoever imports it. */
  lemma AbsoluteAsItStands(h: Host, baseDir: Path, fs: FileSystem, specifier: string, referrer: Option<Path>)
    requires "/" <= specifier
    ensures IsLookup(h, fs, specifier, Resolved(h, baseDir, fs, specifier, referrer))
  {
    ProbedIsLookup(h, fs, specifier);
  }

  /** A search has one result, so a resolution depends on no more than the lemmas above name. */
  lemma SearchIsUnique(fs: FileSystem, places: seq<Place>, base: Path, r: Result<Path, LoadError>, r': Result<Path, LoadError>)
    requires IsSearch(fs, places, base, r) && IsSearch(fs, places, base, r')
    ensures r == r'
  {
    if r.Success? && r'.Success? {
      var i: nat :| i < |places| && Hit(fs, places[i]) && places[i].path == r.value && NoHitBefore(fs, places, i);
      var j: nat :| j < |places| && Hit(fs, places[j]) && places[j].path == r'.value && NoHitBefore(fs, places, j);
      assert i == j;
    }
  }

  /** Built-in names need no files, and what is neither a path nor a built-in name is not found. */
  lemma OtherSpecifiers(h: Host, baseDir: Path, fs: FileSystem, name: string, bare: string, referrer: Option<Path>)
    requires !("/" <= bare) && !IsRelative(bare) && !("bua:" <= bare)
    ensures Resolved(h, baseDir, fs, "bua:" + name, referrer) == Success("__bua_builtin__/" + name)
    ensures Resolved(h, baseDir, fs, bare, referrer) == Failure(ModuleNotFound(bare))
  {
    assert ("bua:" + name)[4..] == name;
    assert ("bua:" + name)[0] == 'b';
  }

  /** The places: for each extension in turn the file itself, then four index files inside it. */
  lemma {:induction false} PlacesInOrder(h: Host, base: Path, exts: seq<string>, from: nat, k: nat)
    requires from <= k < |exts|
    ensures var all, c := Places(h, base, exts, from), if exts[k] == "" then base else h.withSuffix(base, exts[k]);
      && |all| == 5 * (|exts| - from)
      && all[5 * (k - from)..5 * (k - from) + 5] ==
           [FileAt(c), IndexIn(c, h.join(c, "index.ts")), IndexIn(c, h.join(c, "index.js")),
            IndexIn(c, h.join(c, "index.mts")), IndexIn(c, h.join(c, "index.mjs"))]
  {
    PlacesByFives(h, base, exts, from, k);
    FivePlaces(h, Candidate(h, base, exts[k]));
  }

  lemma FiveEach(h: Host, c: Path)
    ensures |CandidatePlaces(h, c)| == 5
  {
    FivePlaces(h, c);
  }

  lemma {:induction false} PlacesByFives(h: Host, base: Path, exts: seq<string>, from: nat, k: nat)
    requires from <= k < |exts|
    ensures |Places(h, base, exts, from)| == 5 * (|exts| - from)
    ensures Places(h, base, exts, from)[5 * (k - from)..5 * (k - from) + 5] == CandidatePlaces(h, Candidate(h, base, exts[k]))
    decreases |exts| - from
  {
    FiveEach(h, Candidate(h, base, exts[from]));
    var first, rest := CandidatePlaces(h, Candidate(h, base, exts[from])), Places(h, base, exts, from + 1);
    if from + 1 < |exts| {
      PlacesByFives(h, base, exts, from + 1, if k == from then k + 1 else k);
    }
    if k > from {
      LaterFive(first, rest, 5 * (k - from - 1));
    }
  }

  lemma LaterFive(first: seq<Place>, rest: seq<Place>, j: nat)
    requires |first| == 5 && j + 5 <= |rest|
    ensures (first + rest)[5 + j..5 + j + 5] == rest[j..j + 5]
  {
  }

  lemma FivePlaces(h: Host, c: Path)
    ensures CandidatePlaces(h, c) ==
      [FileAt(c), IndexIn(c, h.join(c, "index.ts")), IndexIn(c, h.join(c, "index.js")),
       IndexIn(c, h.join(c, "index.mts")), IndexIn(c, h.join(c, "index.mjs"))]
  {
    IndexName(0, "index.ts");
    IndexName(1, "index.js");
    IndexName(2, "index.mts");
    IndexName(3, "index.mjs");
    assert IndexPlaces(h, c, 4) == [];
    assert IndexPlaces(h, c, 3) == [IndexIn(c, h.join(c, "index.mjs"))];
    assert IndexPlaces(h, c, 2) == [IndexIn(c, h.join(c, "index.mts"))] + IndexPlaces(h, c, 3);
    assert IndexPlaces(h, c, 1) == [IndexIn(c, h.join(c, "index.js"))] + IndexPlaces(h, c, 2);
  }

  lemma IndexName(j: nat, name: string)
    requires j < 4 && name == ["index.ts", "index.js", "index.mts", "index.mjs"][j]
    ensures "index" + INDEX_EXTENSIONS[j] == name
  {
  }

  /** Where a base with the k-th ending would be: as it stands, TypeScript before JavaScript, then the rest. */
  function Ending(h: Host, base: Path, k: nat): Path
    requires k < 7
  {
    if k == 0 then base else h.withSuffix(base, [".ts", ".js", ".mts", ".mjs", ".tsx", ".jsx"][k - 1])
  }

  lemma EndingIsCandidate(h: Host, base: Path, k: nat)
    requires k < 7
    ensures Candidate(h, base, EXTENSIONS[k]) == Ending(h, base, k)
  {
  }

  lemma MissingRound(h: Host, fs: FileSystem, base: Path, exts: seq<string>, k: nat)
    requires k < |exts| && Candidate(h, base, exts[k]) !in fs
    ensures FirstHit(fs, Places(h, base, exts, k)) == FirstHit(fs, Places(h, base, exts, k + 1))
  {
    ProbeRound(h, fs, base, exts, k);
    CandidateRound(h, fs, Candidate(h, base, exts[k]));
    NoIndexOutsideDirectories(h, fs, Candidate(h, base, exts[k]), 0);
  }

  lemma SkipMissing(h: Host, fs: FileSystem, base: Path, exts: seq<string>, k: nat)
    requires k < |exts| && forall j :: 0 <= j < k ==> Candidate(h, base, exts[j]) !in fs
    ensures FirstHit(fs, Places(h, base, exts, 0)) == FirstHit(fs, Places(h, base, exts, k))
  {
    for j := 0 to k
      invariant FirstHit(fs, Places(h, base, exts, 0)) == FirstHit(fs, Places(h, base, exts, j))
    {
      MissingRound(h, fs, base, exts, j);
    }
  }

  /** A file is found under the first ending it has, when nothing is there under an earlier one. */
  lemma FirstEndingWins(h: Host, fs: FileSystem, base: Path, k: nat)
    requires k < 7 && IsFile(fs, Ending(h, base, k)) && forall j :: 0 <= j < k ==> Ending(h, base, j) !in fs
    ensures Probed(h, fs, base) == Success(Ending(h, base, k))
  {
    forall j | 0 <= j <= k ensures Candidate(h, base, EXTENSIONS[j]) == Ending(h, base, j) {
      EndingIsCandidate(h, base, j);
    }
    SkipMissing(h, fs, base, EXTENSIONS, k);
    ProbeRound(h, fs, base, EXTENSIONS, k);
    CandidateRound(h, fs, Ending(h, base, k));
  }

  /** For a directory its index file is found; it is enough that something has that name. */
  lemma DirectoryGivesIndex(h: Host, fs: FileSystem, base: Path)
    requires IsDir(fs, base) && h.join(base, "index.ts") in fs
    ensures Probed(h, fs, base) == Success(h.join(base, "index.ts"))
  {
    ProbeRound(h, fs, base, EXTENSIONS, 0);
    CandidateRound(h, fs, base);
    IndexName(0, "index.ts");
    IndexRound(h, fs, base, 0);
  }

  // ---------- Loading ----------

  /** The source of a module, and whether it was transpiled. */
  function SourceAt(h: Host, fs: FileSystem, path: Path): Option<(string, bool)> {
    if !IsFile(fs, path) || fs[path].content.None? then None
    else
      var raw := fs[path].content.value;
      if !h.needsTranspile(path) then Some((raw, false))
      else
        match h.transpile(raw, path)
        case Some(code) => Some((code, true))
        case None => None
  }

  function WhyNot(fs: FileSystem, specifier: string, path: Path): LoadError {
    if path !in fs then ModuleLoadFailed(specifier, Missing)
    else if !fs[path].File? || fs[path].content.None? then ModuleLoadFailed(specifier, Unreadable)
    else TranspileFailed(path)
  }

  function ReadModule(h: Host, fs: FileSystem, specifier: string, path: Path): Result<Module, LoadError> {
    match SourceAt(h, fs, path)
    case Some((source, transpiled)) => Success(Module(specifier, path, source, transpiled))
    case None => Failure(WhyNot(fs, specifier, path))
  }

  /** A load with no cache. */
  function UncachedLoad(h: Host, baseDir: Path, fs: FileSystem, specifier: string, referrer: Option<Path>): Result<Module, LoadError> {
    var path :- Resolved(h, baseDir, fs, specifier, referrer);
    ReadModule(h, fs, specifier, path)
  }

  /** The text of a file, as loading sees it. */
  ghost predicate HasText(fs: FileSystem, path: Path, text: string) {
    path in fs && fs[path].File? && fs[path].content == Some(text)
  }

  /**
   What a load without a cache gives: the file's text, or the transpiler's output for it where
   the path asks for that; and each way to fail.
   */
  lemma LoadGives(h: Host, baseDir: Path, fs: FileSystem, specifier: string, referrer: Option<Path>, path: Path)
    requires Resolved(h, baseDir, fs, specifier, referrer) == Success(path)
    ensures var r := UncachedLoad(h, baseDir, fs, specifier, referrer);
      && (forall text :: HasText(fs, path, text) && !h.needsTranspile(path) ==>
            r == Success(Module(specifier, path, text, false)))
      && (forall text, code :: HasText(fs, path, text) && h.needsTranspile(path) && h.transpile(text, path) == Some(code) ==>
            r == Success(Module(specifier, path, code, true)))
      && (forall text :: HasText(fs, path, text) && h.needsTranspile(path) && h.transpile(text, path) == None ==>
            r == Failure(TranspileFailed(path)))
      && (path !in fs ==> r == Failure(ModuleLoadFailed(specifier, Missing)))
      && (path in fs && (forall text :: !HasText(fs, path, text)) ==> r == Failure(ModuleLoadFailed(specifier, Unreadable)))
  {
    if path in fs && fs[path].File? && fs[path].content.Some? {
      assert HasText(fs, path, fs[path].content.value);
    }
  }

  datatype CacheEntry = CacheEntry(cached: Module, mtime: Time)

  type Cache = map<Path, CacheEntry>

  /** The cached entry is used while the file is there and not newer than when it was cached. */
  predicate IsFresh(cache: Cache, fs: FileSystem, path: Path) {
    path in cache && path in fs && fs[path].mtime <= cache[path].mtime
  }

  /** A load of a resolved path through the cache. */
  function LoadAt(h: Host, cache: Cache, fs: FileSystem, specifier: string, path: Path): (Cache, Result<Module, LoadError>) {
    if IsFresh(cache, fs, path) then (cache, Success(cache[path].cached))
    else
      match ReadModule(h, fs, specifier, path)
      case Failure(e) => (cache, Failure(e))
      case Success(m) => (cache[path := CacheEntry(m, fs[path].mtime)], Success(m))
  }

  function CachedLoad(h: Host, baseDir: Path, cache: Cache, fs: FileSystem, specifier: string, referrer: Option<Path>):
    (Cache, Result<Module, LoadError>)
  {
    match Resolved(h, baseDir, fs, specifier, referrer)
    case Failure(e) => (cache, Failure(e))
    case Success(path) => LoadAt(h, cache, fs, specifier, path)
  }

  class ModuleLoader {
    const host: Host
    const baseDir: Path
    var cache: Cache

    constructor (host: Host, baseDir: Path)
      ensures this.host == host && this.baseDir == baseDir && cache == map[]
    {
      this.host, this.baseDir := host, baseDir;
      cache := map[];
    }

    method Resolve(fs: FileSystem, specifier: string, referrer: Option<Path>) returns (r: Result<Path, LoadError>)
      ensures r == Resolved(host, baseDir, fs, specifier, referrer)
    {
      if "/" <= specifier {
        r := ProbeExtensions(host, fs, specifier);
        return;
      }
      if "./" <= specifier || "../" <= specifier {
        var parent := if referrer.Some? then host.parent(referrer.value) else None;
        r := ProbeExtensions(host, fs, host.join(if parent.Some? then parent.value else baseDir, specifier));
        return;
      }
      if "bua:" <= specifier {
        return Success("__bua_builtin__/" + specifier[4..]);
      }
      r := Failure(ModuleNotFound(specifier));
    }

    /** A load against one state of the file system. */
    method Load(fs: FileSystem, specifier: string, referrer: Option<Path>) returns (r: Result<Module, LoadError>)
      modifies this
      ensures (cache, r) == CachedLoad(host, baseDir, old(cache), fs, specifier, referrer)
    {
      var path :- Resolve(fs, specifier, referrer);
      if path in cache {
        var entry := cache[path];
        if path in fs && fs[path].mtime <= entry.mtime {
          return Success(entry.cached);
        }
      }
      if path !in fs {
        return Failure(ModuleLoadFailed(specifier, Missing));
      }
      if !fs[path].File? || fs[path].content.None? {
        return Failure(ModuleLoadFailed(specifier, Unreadable));
      }
      var source := fs[path].content.value;
      var wasTranspiled := host.needsTranspile(path);
      if wasTranspiled {
        var out := host.transpile(source, path);
        if out.None? {
          return Failure(TranspileFailed(path));
        }
        source := out.value;
      }
      var m := Module(specifier, path, source, wasTranspiled);
      cache := cache[path := CacheEntry(m, fs[path].mtime)];
      r := Success(m);
    }

    method InvalidateAll()
      modifies this
      ensures cache == map[]
    {
      cache := map[];
    }
  }

  // ---------- Whole histories ----------

  /** `stamps` is the latest modification time each path has had, also after it was deleted. */
  datatype World = World(fs: FileSystem, stamps: map<Path, Time>, cache: Cache)

  datatype Event =
    | LoadOf(specifier: string, referrer: Option<Path>)
    | Invalidate
    | Write(path: Path, node: Node)
    | Delete(path: Path)

  /** A write counts only if it raises the path's modification time. */
  predicate Allowed(w: World, e: Event) {
    e.Write? && e.path in w.stamps ==> w.stamps[e.path] < e.node.mtime
  }

  function Next(h: Host, baseDir: Path, w: World, e: Event): World {
    if !Allowed(w, e) then w
    else
      match e
      case LoadOf(specifier, referrer) => w.(cache := CachedLoad(h, baseDir, w.cache, w.fs, specifier, referrer).0)
      case Invalidate => w.(cache := map[])
      case Write(path, node) => w.(fs := w.fs[path := node], stamps := w.stamps[path := node.mtime])
      case Delete(path) => w.(fs := w.fs - {path})
  }

  function Start(fs: FileSystem): World {
    World(fs, map p | p in fs :: fs[p].mtime, map[])
  }

  function After(h: Host, baseDir: Path, fs: FileSystem, events: seq<Event>): World {
    if |events| == 0 then Start(fs)
    else Next(h, baseDir, After(h, baseDir, fs, events[..|events| - 1]), events[|events| - 1])
  }

  /** Equal but for the specifier, which in a cached module is the first loader's spelling. */
  predicate SameModule(a: Module, b: Module) {
    a.resolvedPath == b.resolvedPath && a.source == b.source && a.wasTranspiled == b.wasTranspiled
  }

  predicate SameLoad(a: Result<Module, LoadError>, b: Result<Module, LoadError>) {
    match (a, b)
    case (Success(m), Success(m')) => SameModule(m, m')
    case _ => a == b
  }

  ghost predicate StampsAreCurrent(w: World) {
    forall p :: p in w.fs ==> p in w.stamps && w.stamps[p] == w.fs[p].mtime
  }

  /** A cached module is the file as it was at its cached time, which no later write repeats. */
  ghost predicate EntryIsSound(h: Host, fs: FileSystem, stamps: map<Path, Time>, p: Path, e: CacheEntry) {
    && p in stamps && e.mtime <= stamps[p] && e.cached.resolvedPath == p
    && (p in fs && fs[p].mtime <= e.mtime ==> SourceAt(h, fs, p) == Some((e.cached.source, e.cached.wasTranspiled)))
  }

  ghost predicate Sound(h: Host, w: World) {
    StampsAreCurrent(w) && forall p :: p in w.cache ==> EntryIsSound(h, w.fs, w.stamps, p, w.cache[p])
  }

  /** A load leaves the cache alone or adds the module it has just read. */
  lemma LoadAtKeepsSound(h: Host, w: World, specifier: string, path: Path)
    requires Sound(h, w)
    ensures Sound(h, w.(cache := LoadAt(h, w.cache, w.fs, specifier, path).0))
  {
    var read := ReadModule(h, w.fs, specifier, path);
    if read.Success? {
      assert EntryIsSound(h, w.fs, w.stamps, path, CacheEntry(read.value, w.fs[path].mtime));
    }
  }

  /** What a load through a sound cache gives is what reading the file gives. */
  lemma LoadAtIsTransparent(h: Host, w: World, specifier: string, path: Path)
    requires Sound(h, w)
    ensures SameLoad(LoadAt(h, w.cache, w.fs, specifier, path).1, ReadModule(h, w.fs, specifier, path))
  {
  }

  lemma WriteKeepsSound(h: Host, w: World, path: Path, node: Node)
    requires Sound(h, w) && Allowed(w, Write(path, node))
    ensures Sound(h, w.(fs := w.fs[path := node], stamps := w.stamps[path := node.mtime]))
  {
    var w' := w.(fs := w.fs[path := node], stamps := w.stamps[path := node.mtime]);
    forall p | p in w.cache ensures EntryIsSound(h, w'.fs, w'.stamps, p, w.cache[p]) {
      assert EntryIsSound(h, w.fs, w.stamps, p, w.cache[p]);
    }
  }

  lemma DeleteKeepsSound(h: Host, w: World, path: Path)
    requires Sound(h, w)
    ensures Sound(h, w.(fs := w.fs - {path}))
  {
    forall p | p in w.cache ensures EntryIsSound(h, w.fs - {path}, w.stamps, p, w.cache[p]) {
      assert EntryIsSound(h, w.fs, w.stamps, p, w.cache[p]);
    }
  }

  /** Loads, invalidations, deletions and writes that raise the time keep the cache sound. */
  lemma NextIsSound(h: Host, baseDir: Path, w: World, e: Event)
    requires Sound(h, w)
    ensures Sound(h, Next(h, baseDir, w, e))
  {
    match e
    case LoadOf(specifier, referrer) =>
      var resolved := Resolved(h, baseDir, w.fs, specifier, referrer);
      if resolved.Success? {
        LoadAtKeepsSound(h, w, specifier, resolved.value);
      }
    case Invalidate =>
    case Write(path, node) =>
      if Allowed(w, e) {
        WriteKeepsSound(h, w, path, node);
      }
    case Delete(path) => DeleteKeepsSound(h, w, path);
  }

  lemma {:induction false} AlwaysSound(h: Host, baseDir: Path, fs: FileSystem, events: seq<Event>)
    ensures Sound(h, After(h, baseDir, fs, events))
  {
    if |events| > 0 {
      AlwaysSound(h, baseDir, fs, events[..|events| - 1]);
      NextIsSound(h, baseDir, After(h, baseDir, fs, events[..|events| - 1]), events[|events| - 1]);
    }
  }

  /**
   The cache is transparent: after any history of loads, invalidations, deletions and writes
   that raise the modification time, a load gives what a load without a cache would.
   */
  lemma CacheIsTransparent(h: Host, baseDir: Path, fs: FileSystem, events: seq<Event>,
                           specifier: string, referrer: Option<Path>)
    ensures var w := After(h, baseDir, fs, events);
      SameLoad(CachedLoad(h, baseDir, w.cache, w.fs, specifier, referrer).1,
               UncachedLoad(h, baseDir, w.fs, specifier, referrer))
  {
    AlwaysSound(h, baseDir, fs, events);
    var w := After(h, baseDir, fs, events);
    var resolved := Resolved(h, baseDir, w.fs, specifier, referrer);
    if resolved.Success? {
      LoadAtIsTransparent(h, w, specifier, resolved.value);
    }
  }

  ghost predicate LeavesEntry(cache: Cache, fs: FileSystem, path: Path, cache': Cache, r: Result<Module, LoadError>) {
    && (r.Success? ==> path in cache' && path in fs && fs[path].mtime <= cache'[path].mtime && cache'[path].cached == r.value)
    && (r.Failure? ==> cache' == cache)
    && (forall p :: p != path ==> (p in cache' <==> p in cache) && (p in cache ==> cache'[p] == cache[p]))
  }

  /** A successful load leaves a fresh entry with what it returned, and no other entry changes. */
  lemma LoadedIsCached(h: Host, baseDir: Path, cache: Cache, fs: FileSystem, specifier: string, referrer: Option<Path>, path: Path)
    requires Resolved(h, baseDir, fs, specifier, referrer) == Success(path)
    ensures LeavesEntry(cache, fs, path, CachedLoad(h, baseDir, cache, fs, specifier, referrer).0,
                        CachedLoad(h, baseDir, cache, fs, specifier, referrer).1)
  {
    LoadAtLeavesEntry(h, cache, fs, specifier, path);
  }

  lemma LoadAtLeavesEntry(h: Host, cache: Cache, fs: FileSystem, specifier: string, path: Path)
    ensures LeavesEntry(cache, fs, path, LoadAt(h, cache, fs, specifier, path).0, LoadAt(h, cache, fs, specifier, path).1)
  {
  }

  /** Invalidating forgets every module: the next load of each reads its file. */
  lemma InvalidatingForgets(h: Host, baseDir: Path, fs: FileSystem, events: seq<Event>)
    ensures After(h, baseDir, fs, events + [Invalidate]).cache == map[]
    ensures After(h, baseDir, fs, events + [Invalidate]).fs == After(h, baseDir, fs, events).fs
  {
    assert (events + [Invalidate])[..|events|] == events;
  }

  /** The cached module is what reading the file would give. */
  predicate EntryAgrees(h: Host, fs: FileSystem, path: Path, e: CacheEntry) {
    e.cached.resolvedPath == path && SourceAt(h, fs, path) == Some((e.cached.source, e.cached.wasTranspiled))
  }

  /**
   For any cache, however it came about: a load through it differs from a load without it
   exactly when its entry for the path counts as fresh and is not what the file holds.
   */
  lemma CachedLoadAgreesIff(h: Host, baseDir: Path, cache: Cache, fs: FileSystem, specifier: string, referrer: Option<Path>)
    ensures SameLoad(CachedLoad(h, baseDir, cache, fs, specifier, referrer).1,
                     UncachedLoad(h, baseDir, fs, specifier, referrer)) <==>
      var path := Resolved(h, baseDir, fs, specifier, referrer);
      path.Success? && IsFresh(cache, fs, path.value) ==> EntryAgrees(h, fs, path.value, cache[path.value])
  {
    var path := Resolved(h, baseDir, fs, specifier, referrer);
    if path.Success? {
      LoadAtAgreesIff(h, cache, fs, specifier, path.value);
    }
  }

  lemma LoadAtAgreesIff(h: Host, cache: Cache, fs: FileSystem, specifier: string, path: Path)
    ensures SameLoad(LoadAt(h, cache, fs, specifier, path).1, ReadModule(h, fs, specifier, path)) <==>
      (IsFresh(cache, fs, path) ==> EntryAgrees(h, fs, path, cache[path]))
  {
  }

  lemma UnraisedWriteAt(h: Host, fs: FileSystem, path: Path, before: string, text: string, mtime: Time, mtime': Time)
    requires path in fs && fs[path] == File(Some(before), mtime)
    requires !h.needsTranspile(path) && mtime' <= mtime
    ensures var cache := LoadAt(h, map[], fs, path, path).0;
      var fs' := fs[path := File(Some(text), mtime')];
      && LoadAt(h, cache, fs', path, path).1 == Success(Module(path, path, before, false))
      && ReadModule(h, fs', path, path) == Success(Module(path, path, text, false))
  {
  }

  /** A write that does not raise the time goes unseen: the old text is served again. */
  lemma UnraisedWriteGoesUnseen(h: Host, baseDir: Path, fs: FileSystem, path: Path, before: string, text: string,
                                mtime: Time, mtime': Time)
    requires "/" <= path && path in fs && fs[path] == File(Some(before), mtime)
    requires !h.needsTranspile(path) && mtime' <= mtime
    ensures var cache := CachedLoad(h, baseDir, map[], fs, path, None).0;
      var fs' := fs[path := File(Some(text), mtime')];
      && CachedLoad(h, baseDir, cache, fs', path, None).1 == Success(Module(path, path, before, false))
      && UncachedLoad(h, baseDir, fs', path, None) == Success(Module(path, path, text, false))
  {
    AbsoluteFileResolves(h, baseDir, fs, path);
    AbsoluteFileResolves(h, baseDir, fs[path := File(Some(text), mtime')], path);
    UnraisedWriteAt(h, fs, path, before, text, mtime, mtime');
  }

  lemma AbsoluteFileResolves(h: Host, baseDir: Path, fs: FileSystem, path: Path)
    requires "/" <= path && IsFile(fs, path)
    ensures Resolved(h, baseDir, fs, path, None) == Success(path)
  {
    BaseComesFirst(h, fs, path);
  }
}
