/** `select_frames.py`: copy the frame files named by a list of frame
    numbers from the extracted-frames directory into a selection directory,
    skipping numbers that have no file. The hard-coded list and the two
    directory paths are parameters here. */
module Select {
  import opened Naming
  import opened Files

  /** The frame numbers the shipped script selects. */
  const FramesToAnnotate: seq<nat> :=
    [0, 10, 20, 30, 50, 75, 100, 125, 150, 200, 250, 300, 350, 400, 450, 500, 550, 580]

  /** One turn of the loop: copy `FrameName(i)` when the source has it. */
  function CopyOne<T>(source: Listing<T>, dest: Listing<T>, i: nat): Listing<T>
  {
    var name := FrameName(i);
    if name in source then dest[name := source[name]] else dest
  }

  /** The destination after the loop has run over `indices`, in list order. */
  function CopyAll<T>(source: Listing<T>, dest: Listing<T>, indices: seq<nat>): Listing<T>
  {
    if indices == [] then dest
    else CopyOne(source, CopyAll(source, dest, indices[..|indices| - 1]), indices[|indices| - 1])
  }

  /** The file names the list asks for. */
  function Requested(indices: seq<nat>): set<string>
  {
    set i | i in indices :: FrameName(i)
  }

  /** The entries of `source` whose names are in `names`. */
  function Restrict<T>(source: Listing<T>, names: set<string>): (r: Listing<T>)
    ensures r.Keys == source.Keys * names
    ensures forall n :: n in r ==> r[n] == source[n]
  {
    map n | n in source && n in names :: source[n]
  }

  /** The source files that get copied: the requested names that exist. */
  function Picked<T>(source: Listing<T>, indices: seq<nat>): (picked: Listing<T>)
    ensures picked.Keys == source.Keys * Requested(indices)
    ensures forall n :: n in picked ==> picked[n] == source[n]
  {
    Restrict(source, Requested(indices))
  }

  /** Copying one more name, when the source has it, over a destination
      already overwritten by `names`, is overwriting by `names + {name}`. */
  lemma RestrictInsert<T>(source: Listing<T>, dest: Listing<T>, names: set<string>, name: string)
    ensures (if name in source then (dest + Restrict(source, names))[name := source[name]]
             else dest + Restrict(source, names))
         == dest + Restrict(source, names + {name})
  {
    var before := dest + Restrict(source, names);
    var lhs := if name in source then before[name := source[name]] else before;
    var rhs := dest + Restrict(source, names + {name});
    forall n
      ensures n in lhs <==> n in rhs
      ensures n in lhs ==> lhs[n] == rhs[n]
    {
    }
  }

  /** Whatever the order and repetitions of the list, the loop leaves the
      destination's old entries, overwritten by every requested source file
      that exists. */
  lemma {:induction false} CopyAllIsOverwrite<T>(source: Listing<T>, dest: Listing<T>, indices: seq<nat>)
    ensures CopyAll(source, dest, indices) == dest + Picked(source, indices)
  {
    if indices == [] {
      assert Picked(source, indices) == map[];
    } else {
      var front := indices[..|indices| - 1];
      CopyAllIsOverwrite(source, dest, front);
      OverwriteStep(source, dest, indices);
    }
  }

  /** One more turn of the loop adds one more requested name to the overwrite. */
  lemma OverwriteStep<T>(source: Listing<T>, dest: Listing<T>, indices: seq<nat>)
    requires indices != []
    ensures CopyOne(source, dest + Picked(source, indices[..|indices| - 1]), indices[|indices| - 1])
         == dest + Picked(source, indices)
  {
    var front, i := indices[..|indices| - 1], indices[|indices| - 1];
    RequestedSnoc(indices);
    RestrictInsert(source, dest, Requested(front), FrameName(i));
  }

  lemma RequestedSnoc(indices: seq<nat>)
    requires indices != []
    ensures Requested(indices)
         == Requested(indices[..|indices| - 1]) + {FrameName(indices[|indices| - 1])}
  {
    assert indices == indices[..|indices| - 1] + [indices[|indices| - 1]];
  }

  /** A listed number whose source file exists ends up in the destination
      under the same name, with the source's content. */
  lemma CopiedFilesMatchSource<T>(source: Listing<T>, dest: Listing<T>, indices: seq<nat>, i: nat)
    requires i in indices && FrameName(i) in source
    ensures FrameName(i) in CopyAll(source, dest, indices)
    ensures CopyAll(source, dest, indices)[FrameName(i)] == source[FrameName(i)]
  {
    CopyAllIsOverwrite(source, dest, indices);
    assert FrameName(i) in Requested(indices);
  }

  /** A listed number with no source file is skipped: it creates no entry
      and leaves an existing one alone. */
  lemma MissingSourceSkipped<T>(source: Listing<T>, dest: Listing<T>, indices: seq<nat>, i: nat)
    requires FrameName(i) !in source
    ensures FrameName(i) in CopyAll(source, dest, indices) <==> FrameName(i) in dest
    ensures FrameName(i) in dest ==> CopyAll(source, dest, indices)[FrameName(i)] == dest[FrameName(i)]
  {
    CopyAllIsOverwrite(source, dest, indices);
  }

  /** Entries of the destination that the list does not name are left as
      they were, and nothing but requested names is added. */
  lemma OtherEntriesUnchanged<T>(source: Listing<T>, dest: Listing<T>, indices: seq<nat>, n: string)
    requires n !in Requested(indices)
    ensures n in CopyAll(source, dest, indices) <==> n in dest
    ensures n in dest ==> CopyAll(source, dest, indices)[n] == dest[n]
  {
    CopyAllIsOverwrite(source, dest, indices);
  }

  /** Running the loop a second time changes nothing. */
  lemma CopyAllIdempotent<T>(source: Listing<T>, dest: Listing<T>, indices: seq<nat>)
    ensures CopyAll(source, CopyAll(source, dest, indices), indices) == CopyAll(source, dest, indices)
  {
    CopyAllIsOverwrite(source, dest, indices);
    CopyAllIsOverwrite(source, CopyAll(source, dest, indices), indices);
  }

  /** Only the set of listed numbers matters: repeating a number, or listing
      the numbers in another order, leaves the same destination. */
  lemma CopyAllDependsOnlyOnSet<T>(source: Listing<T>, dest: Listing<T>, xs: seq<nat>, ys: seq<nat>)
    requires forall i :: i in xs <==> i in ys
    ensures CopyAll(source, dest, xs) == CopyAll(source, dest, ys)
  {
    CopyAllIsOverwrite(source, dest, xs);
    CopyAllIsOverwrite(source, dest, ys);
    assert Requested(xs) == Requested(ys);
  }

  /** The number of files copied never exceeds the length of the list. */
  lemma {:induction false} RequestedAtMostListed(indices: seq<nat>)
    ensures |Requested(indices)| <= |indices|
  {
    if indices != [] {
      var front := indices[..|indices| - 1];
      RequestedAtMostListed(front);
      RequestedSnoc(indices);
    }
  }

  lemma CopiedAtMostListed<T>(source: Listing<T>, indices: seq<nat>)
    ensures |Picked(source, indices)| <= |indices|
  {
    RequestedAtMostListed(indices);
    assert Picked(source, indices).Keys <= Requested(indices);
    SubsetSize(Picked(source, indices).Keys, Requested(indices));
  }

  lemma SubsetSize(a: set<string>, b: set<string>)
    requires a <= b
    ensures |a| <= |b|
  {
    assert b == a + (b - a);
  }

  /** The count the script reports is the length of the list: with the
      shipped list and an empty source directory it reports 18 while copying
      nothing. */
  lemma ReportedCountOvercounts<T>(dest: Listing<T>)
    ensures |FramesToAnnotate| == 18
    ensures |Picked<T>(map[], FramesToAnnotate)| == 0
    ensures CopyAll<T>(map[], dest, FramesToAnnotate) == dest
  {
    CopyAllIsOverwrite<T>(map[], dest, FramesToAnnotate);
    assert Picked<T>(map[], FramesToAnnotate) == map[];
  }

  /** The shipped list is strictly increasing, so it has no repetition. */
  lemma ShippedListIncreasing()
    ensures forall a, b :: 0 <= a < b < |FramesToAnnotate| ==> FramesToAnnotate[a] < FramesToAnnotate[b]
  {
  }

  /** The script body: create the destination, copy, report `len(list)`. */
  method SelectFrames<T>(fs: FileSystem<T>, sourceDir: string, destDir: string, indices: seq<nat>)
    returns (reported: nat)
    requires sourceDir != destDir
    modifies fs
    ensures reported == |indices|
    ensures fs.dirs == old(fs.dirs)[destDir := CopyAll(ListingOf(old(fs.dirs), sourceDir),
                                                       ListingOf(old(fs.dirs), destDir), indices)]
  {
    fs.MakeDirs(destDir);
    ghost var source := ListingOf(old(fs.dirs), sourceDir);
    ghost var before := fs.dirs;
    for k := 0 to |indices|
      invariant destDir in fs.dirs
      invariant fs.dirs == before[destDir := CopyAll(source, before[destDir], indices[..k])]
    {
      var i := indices[k];
      var name := FrameName(i);
      assert indices[..k + 1][..k] == indices[..k];
      if sourceDir in fs.dirs && name in fs.dirs[sourceDir] {  // os.path.exists(src)
        fs.WriteFile(destDir, name, fs.dirs[sourceDir][name]);  // shutil.copy(src, dst)
      }
    }
    assert indices[..|indices|] == indices;
    reported := |indices|;
  }
}
