/** The part of the file system the two scripts touch: directories, each a
    flat table from file name to file content. Paths are opaque strings. */
module Files {

  /** The files of one directory, by name. */
  type Listing<T> = map<string, T>

  /** What is in `dir`; a directory that does not exist lists nothing. */
  function ListingOf<T>(dirs: map<string, Listing<T>>, dir: string): Listing<T>
  {
    if dir in dirs then dirs[dir] else map[]
  }

  /** The directories after `mkdir -p dir`: created empty when absent, kept
      with all its files when present. */
  function Created<T>(dirs: map<string, Listing<T>>, dir: string): (r: map<string, Listing<T>>)
    ensures dir in r && r[dir] == ListingOf(dirs, dir)
    ensures forall d :: d in dirs ==> d in r && (d == dir || r[d] == dirs[d])
    ensures forall d :: d in r ==> d in dirs || d == dir
  {
    dirs[dir := ListingOf(dirs, dir)]
  }

  /** `exist_ok=True`: making a directory that exists changes nothing. */
  lemma CreatedExisting<T>(dirs: map<string, Listing<T>>, dir: string)
    requires dir in dirs
    ensures Created(dirs, dir) == dirs
  {
  }

  /** Making a directory that is absent adds it, empty, and nothing else. */
  lemma CreatedAbsent<T>(dirs: map<string, Listing<T>>, dir: string)
    requires dir !in dirs
    ensures Created(dirs, dir).Keys == dirs.Keys + {dir}
    ensures Created(dirs, dir)[dir] == map[]
  {
  }

  /** Making the same directory twice is making it once. */
  lemma CreatedIdempotent<T>(dirs: map<string, Listing<T>>, dir: string)
    ensures Created(Created(dirs, dir), dir) == Created(dirs, dir)
  {
    CreatedExisting(Created(dirs, dir), dir);
  }

  /** Updating one directory twice keeps only the second listing. */
  lemma RewriteEntry<T>(dirs: map<string, Listing<T>>, dir: string, first: Listing<T>, second: Listing<T>)
    ensures dirs[dir := first][dir := second] == dirs[dir := second]
  {
  }

  /** Writing one entry over a merged listing writes it into the later part. */
  lemma MergeThenWrite<T>(first: Listing<T>, second: Listing<T>, name: string, content: T)
    ensures (first + second)[name := content] == first + second[name := content]
  {
    var l, r := (first + second)[name := content], first + second[name := content];
    forall n
      ensures n in l <==> n in r
      ensures n in l ==> l[n] == r[n]
    {
    }
  }

  class FileSystem<T> {
    var dirs: map<string, Listing<T>>

    /** `Path(dir).mkdir(parents=True, exist_ok=True)` and
        `os.makedirs(dir, exist_ok=True)`. */
    method MakeDirs(dir: string)
      modifies this
      ensures dirs == Created(old(dirs), dir)
    {
      if dir !in dirs {
        dirs := dirs[dir := map[]];
      }
    }

    /** Writing file `name` into an existing directory (`cv2.imwrite` taken to
        succeed, `shutil.copy`): that one entry is created or replaced. */
    method WriteFile(dir: string, name: string, content: T)
      requires dir in dirs
      modifies this
      ensures dirs == old(dirs)[dir := old(dirs)[dir][name := content]]
    {
      dirs := dirs[dir := dirs[dir][name := content]];
    }
  }
}
