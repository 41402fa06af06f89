// The lockfile-only exception. A high-risk hit on a known lockfile whose
// manifest was not changed alongside it does not force the high tier. The
// manifest's path is computed by replacing the first occurrence of the
// lockfile's basename in the path with the manifest's name.
module Lockfile {
  import opened Text

  /** `lockfileMap`: lockfile basename to the manifest it is generated from. */
  const Manifests: map<string, string> := map[
    "package-lock.json" := "package.json",
    "yarn.lock" := "package.json",
    "pnpm-lock.yaml" := "package.json",
    "poetry.lock" := "pyproject.toml",
    "Gemfile.lock" := "Gemfile",
    "go.sum" := "go.mod"
  ]

  /** `path.basename(file)` for a path that does not end in `/`: the longest
      suffix without a `/`. */
  function Basename(file: string): (b: string)
    ensures |b| <= |file| && file[|file| - |b|..] == b
    ensures '/' !in b
    ensures |b| == |file| || file[|file| - |b| - 1] == '/'
  {
    if file == [] || file[|file| - 1] == '/' then []
    else Basename(file[..|file| - 1]) + [file[|file| - 1]]
  }

  /** The directory part, up to and including the last `/`. */
  function Dirname(file: string): (d: string)
    ensures d + Basename(file) == file
    ensures d == [] || d[|d| - 1] == '/'
  {
    file[..|file| - |Basename(file)|]
  }

  /** `h.file.replace(basename, lockfileMap[basename])` */
  function ManifestPath(file: string): string
    requires Basename(file) in Manifests
  {
    ReplaceFirst(file, Basename(file), Manifests[Basename(file)])
  }

  /** The per-hit test of the `every`: a known lockfile whose manifest is not among the changed files. */
  predicate Downgradable(file: string, changed: seq<string>) {
    Basename(file) in Manifests && ManifestPath(file) !in changed
  }

  // ---------------------------------------------------------------------
  // Where the manifest path points

  /** An occurrence of a `/`-free name that reaches into the basename lies wholly inside it. */
  lemma FirstOccurrenceIsBasename(file: string)
    requires Basename(file) != []
    requires forall j :: !OccursAt(Dirname(file), Basename(file), j)
    ensures IndexOf(file, Basename(file)) == |Dirname(file)|
  {
    FirstOccurrenceAfterDirectory(Dirname(file), Basename(file));
  }

  lemma FirstOccurrenceAfterDirectory(d: string, b: string)
    requires b != [] && '/' !in b
    requires d == [] || d[|d| - 1] == '/'
    requires forall j :: !OccursAt(d, b, j)
    ensures IndexOf(d + b, b) == |d|
  {
    var file := d + b;
    assert OccursAt(file, b, |d|) by {
      assert file[|d|..|d| + |b|] == b;
    }
    forall j | 0 <= j < |d| ensures !OccursAt(file, b, j) {
      if j + |b| <= |d| {
        assert !OccursAt(d, b, j);
        assert file[j..j + |b|] == d[j..j + |b|];
      } else {
        NoOccurrenceAcrossSlash(d, b, j);
      }
    }
  }

  lemma NoOccurrenceAcrossSlash(d: string, b: string, j: nat)
    requires d != [] && d[|d| - 1] == '/' && '/' !in b
    requires j < |d| < j + |b|
    ensures !OccursAt(d + b, b, j)
  {
    var file := d + b;
    if j + |b| <= |file| {
      assert file[|d| - 1] == '/';
      assert file[j..j + |b|][|d| - 1 - j] == '/';
      assert b[|d| - 1 - j] != '/';
    }
  }

  lemma ReplaceBasename(file: string, rep: string)
    requires Basename(file) != []
    requires forall j :: !OccursAt(Dirname(file), Basename(file), j)
    ensures ReplaceFirst(file, Basename(file), rep) == Dirname(file) + rep
  {
    var b, d := Basename(file), Dirname(file);
    FirstOccurrenceIsBasename(file);
    assert file[..|d|] == d;
    assert file[|d| + |b|..] == [];
  }

  lemma ManifestKeysNonEmpty(b: string)
    requires b in Manifests
    ensures b != []
  {
  }

  /** When the directory does not itself contain the lockfile's name, the
      computed manifest path is the sibling of the lockfile. */
  lemma ManifestIsSibling(file: string)
    requires Basename(file) in Manifests
    requires forall j :: !OccursAt(Dirname(file), Basename(file), j)
    ensures ManifestPath(file) == Dirname(file) + Manifests[Basename(file)]
  {
    ManifestKeysNonEmpty(Basename(file));
    ReplaceBasename(file, Manifests[Basename(file)]);
  }

  lemma {:induction false} BasenameOfJoin(dir: string, name: string)
    requires '/' !in name
    requires dir == [] || dir[|dir| - 1] == '/'
    ensures Basename(dir + name) == name
    decreases |name|
  {
    if name == [] {
      assert dir + name == dir;
    } else {
      var init := name[..|name| - 1];
      assert (dir + name)[..|dir + name| - 1] == dir + init;
      assert name == init + [name[|name| - 1]];
      BasenameOfJoin(dir, init);
    }
  }

  /** A lockfile in directory `dir` (given with its trailing `/`) whose
      directory does not contain the lockfile's name is excused exactly when
      the manifest in the same directory did not change. */
  lemma SiblingManifest(dir: string, name: string, changed: seq<string>)
    requires name in Manifests
    requires dir == [] || dir[|dir| - 1] == '/'
    requires |dir| < |name|
    ensures Basename(dir + name) == name && Dirname(dir + name) == dir
    ensures ManifestPath(dir + name) == dir + Manifests[name]
    ensures Downgradable(dir + name, changed) <==> dir + Manifests[name] !in changed
  {
    LockfileNameFacts(name);
    BasenameOfJoin(dir, name);
    assert (dir + name)[..|dir|] == dir;
    ManifestIsSibling(dir + name);
  }

  /** The first occurrence can lie in the directory: for `ago.sum/go.sum`
      (`c` is `a`, `b` is `go.sum`) the computed manifest is `ago.mod/go.sum`,
      not the sibling `ago.sum/go.mod`. */
  lemma ManifestPathInDirectory(c: char, b: string)
    requires b in Manifests && |Manifests[b]| == |b| && c != '/' && c != b[0]
    ensures Basename([c] + b + "/" + b) == b
    ensures Dirname([c] + b + "/" + b) == [c] + b + "/"
    ensures ManifestPath([c] + b + "/" + b) == [c] + Manifests[b] + "/" + b
    ensures ManifestPath([c] + b + "/" + b) != Dirname([c] + b + "/" + b) + Manifests[b]
  {
    LockfileNameFacts(b);
    BasenameOfJoin([c] + b + "/", b);
    DirnameOfJoin([c] + b + "/", b);
    ReplaceInDirectory(c, b, Manifests[b]);
    SwappedNamesDiffer(c, b, Manifests[b]);
  }

  lemma DirnameOfJoin(dir: string, name: string)
    requires '/' !in name
    requires dir == [] || dir[|dir| - 1] == '/'
    ensures Dirname(dir + name) == dir
  {
    BasenameOfJoin(dir, name);
    assert (dir + name)[..|dir|] == dir;
  }

  lemma SwappedNamesDiffer(c: char, b: string, m: string)
    requires |m| == |b| && m != b
    ensures [c] + m + "/" + b != [c] + b + "/" + m
  {
    assert ([c] + m + "/" + b)[1..1 + |b|] == m;
    assert ([c] + b + "/" + m)[1..1 + |b|] == b;
  }

  lemma ReplaceInDirectory(c: char, b: string, m: string)
    requires b != [] && c != b[0]
    ensures ReplaceFirst([c] + b + "/" + b, b, m) == [c] + m + "/" + b
  {
    var file := [c] + b + "/" + b;
    assert OccursAt(file, b, 1) by {
      assert file[1..1 + |b|] == b;
    }
    assert !OccursAt(file, b, 0) by {
      assert file[0..|b|][0] == c;
    }
    assert IndexOf(file, b) == 1;
    assert file[..1] == [c];
    assert file[1 + |b|..] == "/" + b;
  }

  // ---------------------------------------------------------------------
  // The key test as written. `basename in lockfileMap` also holds for the
  // names every object literal inherits from `Object.prototype`; for those,
  // `lockfileMap[basename]` is a function or an object, and `replace` calls
  // it (with no receiver) or converts it to text.

  datatype Option<T> = None | Some(value: T)

  const InheritedNames: set<string> := {
    "constructor", "__defineGetter__", "__defineSetter__", "hasOwnProperty",
    "__lookupGetter__", "__lookupSetter__", "isPrototypeOf", "propertyIsEnumerable",
    "toString", "valueOf", "__proto__", "toLocaleString"
  }

  /** The outcome of `basename in lockfileMap` followed by
      `file.replace(basename, lockfileMap[basename])` for a name that is not an
      own key: not found, a throw, or the replaced path. */
  datatype InheritedLookup = NotFound | Throws | Replaced(path: string)

  /** For an inherited name, `lockfileMap[b]` is a method of `Object.prototype`
      (or the prototype itself, for `__proto__`). `replace` calls a function
      replacement without a receiver, and converts anything else to text;
      only `toString`, `isPrototypeOf` and `constructor` return without
      throwing when called that way. */
  function LookupInherited(file: string, b: string): InheritedLookup {
    if b == "toString" then Replaced(ReplaceFirst(file, b, "[object Undefined]"))
    else if b == "isPrototypeOf" then Replaced(ReplaceFirst(file, b, "false"))
    else if b == "__proto__" then Replaced(ReplaceFirst(file, b, "[object Object]"))
    else if b == "constructor" then Replaced(ReplaceFirst(file, b, b))
    else if b in InheritedNames then Throws
    else NotFound
  }

  /** The per-hit test of the `every` as written; `None` when it throws. */
  function HitTestAsWritten(file: string, changed: seq<string>): Option<bool> {
    var b := Basename(file);
    if b in Manifests then Some(ManifestPath(file) !in changed)
    else match LookupInherited(file, b)
      case NotFound => Some(false)
      case Throws => None
      case Replaced(m) => Some(m !in changed)
  }

  /** Off the prototype names, the test as written is the own-key test. */
  lemma AsWrittenAgreesOffPrototype(file: string, changed: seq<string>)
    requires Basename(file) !in InheritedNames
    ensures HitTestAsWritten(file, changed) == Some(Downgradable(file, changed))
  {
    NotInheritedIsNotFound(file, Basename(file));
  }

  lemma NotInheritedIsNotFound(file: string, b: string)
    requires b !in InheritedNames
    ensures LookupInherited(file, b) == NotFound
  {
  }

  /** A hit on a file named `toString`, `isPrototypeOf` or `__proto__` (none
      of them a lockfile) passes the test as written even though the file itself
      is among the changed files. */
  lemma PrototypeNamePassesAsWritten(dir: string, b: string)
    requires dir == [] || dir[|dir| - 1] == '/'
    requires b == "toString" || b == "isPrototypeOf" || b == "__proto__"
    ensures Basename(dir + b) == b
    ensures HitTestAsWritten(dir + b, [dir + b]) == Some(true)
    ensures !Downgradable(dir + b, [dir + b])
  {
    var rep := PrototypeNameFacts(b);
    BasenameOfJoin(dir, b);
    InheritedNamePasses(dir, b, rep);
  }

  /** The replacement text has another length than the name, so the computed
      "manifest" is never the file itself. */
  lemma InheritedNamePasses(dir: string, b: string, rep: string)
    requires dir == [] || dir[|dir| - 1] == '/'
    requires '/' !in b && b !in Manifests && |rep| != |b|
    requires LookupInherited(dir + b, b) == Replaced(ReplaceFirst(dir + b, b, rep))
    ensures HitTestAsWritten(dir + b, [dir + b]) == Some(true)
    ensures !Downgradable(dir + b, [dir + b])
  {
    BasenameOfJoin(dir, b);
    ReplacementChangesFile(dir, b, rep);
    HitTestOfReplaced(dir + b, [dir + b], ReplaceFirst(dir + b, b, rep));
  }

  lemma ReplacementChangesFile(dir: string, b: string, rep: string)
    requires |rep| != |b|
    ensures ReplaceFirst(dir + b, b, rep) != dir + b
  {
    var file := dir + b;
    assert OccursAt(file, b, |dir|) by {
      assert file[|dir|..] == b;
    }
    ReplaceChangesLength(file, b, rep);
  }

  lemma HitTestOfReplaced(file: string, changed: seq<string>, m: string)
    requires Basename(file) !in Manifests
    requires LookupInherited(file, Basename(file)) == Replaced(m)
    ensures HitTestAsWritten(file, changed) == Some(m !in changed)
    ensures !Downgradable(file, changed)
  {
  }

  lemma PrototypeNameFacts(b: string) returns (rep: string)
    requires b == "toString" || b == "isPrototypeOf" || b == "__proto__"
    ensures '/' !in b && b !in Manifests && b in InheritedNames
    ensures |rep| != |b|
    ensures forall file :: LookupInherited(file, b) == Replaced(ReplaceFirst(file, b, rep))
  {
    rep := if b == "toString" then "[object Undefined]"
      else if b == "isPrototypeOf" then "false" else "[object Object]";
  }

  /** A hit on a file named `valueOf`, `hasOwnProperty` or `toLocaleString`
      makes the test as written throw: `replace` calls that method of
      `Object.prototype` without a receiver. The own-key test simply does not
      excuse the hit. */
  lemma ThrowingNameFailsAsWritten(dir: string, b: string, changed: seq<string>)
    requires dir == [] || dir[|dir| - 1] == '/'
    requires b == "valueOf" || b == "hasOwnProperty" || b == "toLocaleString"
    ensures Basename(dir + b) == b
    ensures HitTestAsWritten(dir + b, changed) == None
    ensures !Downgradable(dir + b, changed)
  {
    ThrowingNameFacts(b);
    BasenameOfJoin(dir, b);
  }

  lemma ThrowingNameFacts(b: string)
    requires b == "valueOf" || b == "hasOwnProperty" || b == "toLocaleString"
    ensures '/' !in b && b !in Manifests
    ensures forall file :: LookupInherited(file, b) == Throws
  {
  }

  /** The own-key test downgrades only the six known lockfiles. */
  lemma OnlyKnownLockfilesDowngrade(file: string, changed: seq<string>)
    requires Downgradable(file, changed)
    ensures Basename(file) in {"package-lock.json", "yarn.lock", "pnpm-lock.yaml", "poetry.lock", "Gemfile.lock", "go.sum"}
    ensures Basename(file) !in InheritedNames
  {
    var b := Basename(file);
    assert b in Manifests;
    ManifestKeys(b);
  }

  lemma ManifestKeys(b: string)
    requires b in Manifests
    ensures b in {"package-lock.json", "yarn.lock", "pnpm-lock.yaml", "poetry.lock", "Gemfile.lock", "go.sum"}
    ensures b !in InheritedNames
    ensures '/' !in b
    ensures Manifests[b] != b
  {
  }

  /** What the rest of the model needs of a lockfile name, without naming the six. */
  lemma LockfileNameFacts(b: string)
    requires b in Manifests
    ensures b != [] && '/' !in b && Manifests[b] != b
  {
    ManifestKeys(b);
  }
}
