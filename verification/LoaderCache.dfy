/** The loader's cache of normalised paths, keyed by path: a hit on an equal spelling answers what computing
    would. */
module LoaderCache {
  import opened Text
  import opened CaseFold
  import opened Paths
  import opened PathAlgebra
  import opened Canonical

  datatype Entry = Entry(key: Path, value: Path)

  /** Two answers are one path up to case, or both are the same failure. */
  ghost predicate Agree(g: char -> char, a: Option<Path>, b: Option<Path>) {
    (a.None? && b.None?) || (a.Some? && b.Some? && Equal(g, a.value, b.value))
  }

  class LoaderUtil {
    const fs: FileSystem
    var cache: map<string, Entry>

    /** Every cached value is the canonical form of the path it was first computed for. */
    ghost predicate Valid()
      reads this
    {
      && FsOk(fs) && fs.dir.root != ""
      && forall k | k in cache ::
           Paths.Valid(cache[k].key) && k == FoldText(fs.fold.up, cache[k].key.path)
           && CanonicalPath(fs, cache[k].key) == Some(cache[k].value)
    }

    constructor (fs: FileSystem)
      requires FsOk(fs)
      ensures Valid() && this.fs == fs && cache == map[]
    {
      DirHasRoot(fs);
      this.fs, cache := fs, map[];
    }

    /** `computeIfAbsent`: a hit on any equal path answers what computing would, up to case; a miss
        computes and remembers, and a failure is not remembered. */
    method NormalizeExistingPath(path: Path) returns (r: Option<Path>)
      requires Valid() && Paths.Valid(path)
      modifies this
      ensures Valid() && Agree(fs.fold.up, r, CanonicalPath(fs, path))
      ensures forall k | k in old(cache) :: k in cache && cache[k] == old(cache[k])
      ensures FoldText(fs.fold.up, path.path) in cache <==> r.Some?
    {
      var k := FoldText(fs.fold.up, path.path);
      if k in cache {
        HitAgrees(fs, cache[k], path);
        return Some(cache[k].value);
      }
      r := CanonicalPath(fs, path);
      if r.Some? {
        SameRefl(fs.fold.up, r.value.path);
        cache := cache[k := Entry(path, r.value)];
      }
    }

    /** `normalizePath`: both branches agree with the direct computation. */
    method NormalizePath(path: Path, present: bool) returns (r: Option<Path>)
      requires Valid() && Paths.Valid(path)
      modifies this
      ensures Valid() && Agree(fs.fold.up, r, CanonicalPath(fs, path))
      ensures !present ==> r == CanonicalPath(fs, path) && cache == old(cache)
    {
      if present {
        r := NormalizeExistingPath(path);
      } else {
        r := CanonicalPath(fs, path);
        if r.Some? {
          SameRefl(fs.fold.up, r.value.path);
        }
      }
    }
  }

  lemma HitAgrees(fs: FileSystem, e: Entry, path: Path)
    requires FsOk(fs) && fs.dir.root != "" && Valid(path) && Valid(e.key)
    requires FoldText(fs.fold.up, path.path) == FoldText(fs.fold.up, e.key.path)
    requires CanonicalPath(fs, e.key) == Some(e.value)
    ensures Agree(fs.fold.up, Some(e.value), CanonicalPath(fs, path))
  {
    FoldTextIffSame(fs.fold.up, e.key.path, path.path);
    CanonicalRespectsCase(fs, e.key, path);
  }
}
