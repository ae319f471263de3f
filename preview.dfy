/** `preview_frames`: show the first few `.jpg` files of a directory in
    sorted order, skipping unreadable ones, until the viewer presses `q`.
    Decoding (`cv2.imread`) is the predicate `decodable` on file contents and
    the keys pressed are the function `key`: `key(j)` is what the `j`-th
    `cv2.waitKey` call returns. */
module Preview {
  import opened Order
  import opened Naming
  import opened Files
  import opened Extract

  /** `ord('q')`. */
  const QuitKey: int := 113

  /** The names the preview looks at: those ending in `.jpg`. */
  function JpgNames<T>(listing: Listing<T>): (names: set<string>)
    ensures forall n :: n in names <==> n in listing && EndsWith(n, ".jpg")
  {
    set n | n in listing && EndsWith(n, ".jpg")
  }

  /** Every frame file passes the `.jpg` filter: the preview considers a
      frame exactly when the directory holds it. */
  lemma FrameFilesAreCandidates<T>(listing: Listing<T>, index: nat)
    ensures FrameName(index) in JpgNames(listing) <==> FrameName(index) in listing
  {
    FrameNameIsJpg(index);
  }

  /** `range(min(num_preview, len(frames)))` visits this many names; a
      negative request visits none. */
  function PreviewCount(requested: int, available: nat): (count: nat)
    ensures count <= available
    ensures 0 <= requested ==> count <= requested
    ensures 0 <= requested ==> count == available || count == requested
    ensures requested < 0 ==> count == 0
  {
    if requested < 0 then 0 else if requested < available then requested else available
  }

  /** `cv2.imread` gives an image (rather than `None`) for this name. */
  predicate Readable<T>(listing: Listing<T>, decodable: T -> bool, name: string)
  {
    name in listing && decodable(listing[name])
  }

  /** The names displayed, the names reported unreadable, and whether the
      viewer quit. */
  datatype Tour = Tour(shown: seq<string>, unreadable: seq<string>, cancelled: bool)

  datatype PreviewOutcome =
    | DirectoryMissing  // `os.listdir` raises on a missing directory
    | NoFrames          // "No frames found"
    | Previewed(tour: Tour)

  /** The loop over `names`, when `displayed` images have been shown before. */
  function Walk<T>(names: seq<string>, listing: Listing<T>, decodable: T -> bool,
                   key: nat -> int, displayed: nat): Tour
  {
    if names == [] then Tour([], [], false)
    else if !Readable(listing, decodable, names[0]) then
      var rest := Walk(names[1..], listing, decodable, key, displayed);
      Tour(rest.shown, [names[0]] + rest.unreadable, rest.cancelled)
    else if key(displayed) == QuitKey then Tour([names[0]], [], true)
    else
      var rest := Walk(names[1..], listing, decodable, key, displayed + 1);
      Tour([names[0]] + rest.shown, rest.unreadable, rest.cancelled)
  }

  /** What has been done so far followed by the rest of the loop. */
  function Then(shown: seq<string>, unreadable: seq<string>, rest: Tour): Tour
  {
    Tour(shown + rest.shown, unreadable + rest.unreadable, rest.cancelled)
  }

  /** Every displayed name was among the visited ones and readable; every
      reported name was among them and unreadable; no more names are handled
      than were visited. */
  lemma {:induction false} WalkVisitsOnlyNames<T>(names: seq<string>, listing: Listing<T>,
                                                  decodable: T -> bool, key: nat -> int, displayed: nat)
    ensures var t := Walk(names, listing, decodable, key, displayed);
            && (forall n :: n in t.shown ==> n in names && Readable(listing, decodable, n))
            && (forall n :: n in t.unreadable ==> n in names && !Readable(listing, decodable, n))
            && |t.shown| + |t.unreadable| <= |names|
  {
    if names != [] {
      if !Readable(listing, decodable, names[0]) || key(displayed) != QuitKey {
        var next := if Readable(listing, decodable, names[0]) then displayed + 1 else displayed;
        WalkVisitsOnlyNames(names[1..], listing, decodable, key, next);
      }
    }
  }

  /** Names are displayed, and reported, in the order of `names`: sorted
      names give sorted displays. */
  lemma {:induction false} WalkKeepsOrder<T>(names: seq<string>, listing: Listing<T>,
                                             decodable: T -> bool, key: nat -> int, displayed: nat)
    requires StrictlySorted(names)
    ensures StrictlySorted(Walk(names, listing, decodable, key, displayed).shown)
    ensures StrictlySorted(Walk(names, listing, decodable, key, displayed).unreadable)
  {
    if names != [] {
      if !Readable(listing, decodable, names[0]) || key(displayed) != QuitKey {
        var next := if Readable(listing, decodable, names[0]) then displayed + 1 else displayed;
        WalkKeepsOrder(names[1..], listing, decodable, key, next);
        WalkVisitsOnlyNames(names[1..], listing, decodable, key, next);
        var rest := Walk(names[1..], listing, decodable, key, next);
        forall n | n in rest.shown + rest.unreadable
          ensures Below(names[0], n)
        {
          var i :| 0 <= i < |names[1..]| && names[1..][i] == n;
          assert names[i + 1] == n;
        }
      }
    }
  }

  /** The preview stops exactly at the first displayed image answered with
      `q`: no earlier display got `q`, and it was cancelled only by one. */
  lemma {:induction false} WalkStopsOnQuit<T>(names: seq<string>, listing: Listing<T>,
                                              decodable: T -> bool, key: nat -> int, displayed: nat)
    ensures var t := Walk(names, listing, decodable, key, displayed);
            && (forall d: nat :: displayed <= d < displayed + |t.shown| - 1 ==> key(d) != QuitKey)
            && (t.cancelled <==> t.shown != [] && key(displayed + |t.shown| - 1) == QuitKey)
  {
    if names != [] {
      if !Readable(listing, decodable, names[0]) {
        WalkStopsOnQuit(names[1..], listing, decodable, key, displayed);
      } else if key(displayed) != QuitKey {
        WalkStopsOnQuit(names[1..], listing, decodable, key, displayed + 1);
        var rest := Walk(names[1..], listing, decodable, key, displayed + 1);
        if rest.shown != [] {
          assert displayed + 1 + |rest.shown| - 1 == displayed + |[names[0]] + rest.shown| - 1;
        }
      }
    }
  }

  /** A cancelled tour handled exactly a prefix of `names` that ends with
      its last displayed name, each name by its readability. */
  predicate CancelledPrefix<T>(names: seq<string>, t: Tour, listing: Listing<T>, decodable: T -> bool)
  {
    var p := |t.shown| + |t.unreadable|;
    t.cancelled ==>
      && 0 < |t.shown| && p <= |names|
      && t.shown[|t.shown| - 1] == names[p - 1]
      && forall n :: n in names[..p] ==>
           (n in t.shown <==> Readable(listing, decodable, n))
           && (n in t.unreadable <==> !Readable(listing, decodable, n))
  }

  /** A `q` ends the whole loop: the names handled are exactly the prefix of
      `names` up to the one answered with `q`, which is the last displayed,
      and each of them is displayed or reported according to its
      readability. Nothing after it is visited. */
  lemma {:induction false} WalkCancelledPrefix<T>(names: seq<string>, listing: Listing<T>,
                                                  decodable: T -> bool, key: nat -> int, displayed: nat)
    ensures CancelledPrefix(names, Walk(names, listing, decodable, key, displayed), listing, decodable)
  {
    if names != [] {
      var n0 := names[0];
      assert names == [n0] + names[1..];
      if !Readable(listing, decodable, n0) {
        WalkCancelledPrefix(names[1..], listing, decodable, key, displayed);
        WalkVisitsOnlyNames(names[1..], listing, decodable, key, displayed);
        SkipKeepsPrefix(n0, names[1..], Walk(names[1..], listing, decodable, key, displayed), listing, decodable);
      } else if key(displayed) != QuitKey {
        WalkCancelledPrefix(names[1..], listing, decodable, key, displayed + 1);
        WalkVisitsOnlyNames(names[1..], listing, decodable, key, displayed + 1);
        ShowKeepsPrefix(n0, names[1..], Walk(names[1..], listing, decodable, key, displayed + 1), listing, decodable);
      } else {
        assert names[..1] == [n0];
      }
    }
  }

  lemma SkipKeepsPrefix<T>(n0: string, names: seq<string>, rest: Tour, listing: Listing<T>, decodable: T -> bool)
    requires !Readable(listing, decodable, n0) && CancelledPrefix(names, rest, listing, decodable)
    requires forall n :: n in rest.shown ==> Readable(listing, decodable, n)
    ensures CancelledPrefix([n0] + names, Tour(rest.shown, [n0] + rest.unreadable, rest.cancelled), listing, decodable)
  {
    if rest.cancelled {
      var q := |rest.shown| + |rest.unreadable|;
      assert ([n0] + names)[..q + 1] == [n0] + names[..q];
      assert ([n0] + names)[q] == names[q - 1];
    }
  }

  lemma ShowKeepsPrefix<T>(n0: string, names: seq<string>, rest: Tour, listing: Listing<T>, decodable: T -> bool)
    requires Readable(listing, decodable, n0) && CancelledPrefix(names, rest, listing, decodable)
    requires forall n :: n in rest.unreadable ==> !Readable(listing, decodable, n)
    ensures CancelledPrefix([n0] + names, Tour([n0] + rest.shown, rest.unreadable, rest.cancelled), listing, decodable)
  {
    if rest.cancelled {
      var q := |rest.shown| + |rest.unreadable|;
      assert ([n0] + names)[..q + 1] == [n0] + names[..q];
      assert ([n0] + names)[q] == names[q - 1];
      assert ([n0] + rest.shown)[|rest.shown|] == rest.shown[|rest.shown| - 1];
    }
  }

  /** Without a `q`, every visited name is either displayed (when readable)
      or reported (when not): an unreadable file never ends the preview. */
  lemma {:induction false} WalkCompletes<T>(names: seq<string>, listing: Listing<T>,
                                            decodable: T -> bool, key: nat -> int, displayed: nat)
    ensures var t := Walk(names, listing, decodable, key, displayed);
            !t.cancelled ==>
              && |t.shown| + |t.unreadable| == |names|
              && forall n :: n in names ==>
                   (n in t.shown <==> Readable(listing, decodable, n))
                   && (n in t.unreadable <==> !Readable(listing, decodable, n))
  {
    if names != [] {
      var next := if Readable(listing, decodable, names[0]) then displayed + 1 else displayed;
      WalkCompletes(names[1..], listing, decodable, key, next);
      WalkVisitsOnlyNames(names[1..], listing, decodable, key, next);
    }
  }

  /** After a fresh extraction of at most a million frames, the preview
      visits `frame_000000.jpg`, `frame_000001.jpg`, ... in extraction order. */
  lemma PreviewOrderAfterExtraction<T>(saved: seq<T>)
    requires |saved| <= Pow10(IndexWidth)
    ensures SortSet(JpgNames(Numbered(saved))) == FrameNames(|saved|)
  {
    NumberedContents(saved);
    FrameNamesSorted(|saved|);
    forall n | n in NameRange(|saved|)
      ensures EndsWith(n, ".jpg")
    {
      var j :| 0 <= j < |saved| && n == FrameName(j);
      FrameNameIsJpg(j);
    }
    SortSetUnique(JpgNames(Numbered(saved)), FrameNames(|saved|));
  }

  /** The names after the `i`-th. */
  lemma Rest(names: seq<string>, i: nat)
    requires i < |names|
    ensures names[i..] != [] && names[i..][0] == names[i] && names[i..][1..] == names[i + 1..]
  {
  }

  /** An unreadable name is reported and the loop goes on. */
  lemma SkipStep<T>(names: seq<string>, i: nat, listing: Listing<T>, decodable: T -> bool,
                    key: nat -> int, shown: seq<string>, unreadable: seq<string>)
    requires i < |names| && !Readable(listing, decodable, names[i])
    ensures Then(shown, unreadable, Walk(names[i..], listing, decodable, key, |shown|))
         == Then(shown, unreadable + [names[i]], Walk(names[i + 1..], listing, decodable, key, |shown|))
  {
    Rest(names, i);
    var rest := Walk(names[i + 1..], listing, decodable, key, |shown|);
    assert Walk(names[i..], listing, decodable, key, |shown|)
        == Tour(rest.shown, [names[i]] + rest.unreadable, rest.cancelled);
    assert unreadable + ([names[i]] + rest.unreadable) == (unreadable + [names[i]]) + rest.unreadable;
  }

  /** A readable name answered by another key is displayed and the loop goes on. */
  lemma ShowStep<T>(names: seq<string>, i: nat, listing: Listing<T>, decodable: T -> bool,
                    key: nat -> int, shown: seq<string>, unreadable: seq<string>)
    requires i < |names| && Readable(listing, decodable, names[i]) && key(|shown|) != QuitKey
    ensures Then(shown, unreadable, Walk(names[i..], listing, decodable, key, |shown|))
         == Then(shown + [names[i]], unreadable, Walk(names[i + 1..], listing, decodable, key, |shown| + 1))
  {
    Rest(names, i);
    var rest := Walk(names[i + 1..], listing, decodable, key, |shown| + 1);
    assert Walk(names[i..], listing, decodable, key, |shown|)
        == Tour([names[i]] + rest.shown, rest.unreadable, rest.cancelled);
    assert shown + ([names[i]] + rest.shown) == (shown + [names[i]]) + rest.shown;
  }

  /** A readable name answered by `q` is displayed and ends the preview. */
  lemma QuitStep<T>(names: seq<string>, i: nat, listing: Listing<T>, decodable: T -> bool,
                    key: nat -> int, shown: seq<string>, unreadable: seq<string>)
    requires i < |names| && Readable(listing, decodable, names[i]) && key(|shown|) == QuitKey
    ensures Then(shown, unreadable, Walk(names[i..], listing, decodable, key, |shown|))
         == Tour(shown + [names[i]], unreadable, true)
  {
    Rest(names, i);
    assert Walk(names[i..], listing, decodable, key, |shown|) == Tour([names[i]], [], true);
    assert unreadable + [] == unreadable;
  }

  /** Past the last name nothing more happens. */
  lemma WalkDone<T>(names: seq<string>, listing: Listing<T>, decodable: T -> bool,
                    key: nat -> int, shown: seq<string>, unreadable: seq<string>)
    ensures Then(shown, unreadable, Walk(names[|names|..], listing, decodable, key, |shown|))
         == Tour(shown, unreadable, false)
  {
    assert names[|names|..] == [];
    assert shown + [] == shown && unreadable + [] == unreadable;
  }

  method PreviewFrames<T>(fs: FileSystem<T>, frameDir: string, numPreview: int,
                          decodable: T -> bool, key: nat -> int)
    returns (outcome: PreviewOutcome)
    ensures frameDir !in fs.dirs ==> outcome == DirectoryMissing
    ensures frameDir in fs.dirs ==>
              var names := SortSet(JpgNames(fs.dirs[frameDir]));
              outcome == if names == [] then NoFrames
                         else Previewed(Walk(names[..PreviewCount(numPreview, |names|)],
                                             fs.dirs[frameDir], decodable, key, 0))
  {
    if frameDir !in fs.dirs {
      return DirectoryMissing;  // os.listdir raises
    }
    var listing := fs.dirs[frameDir];
    var frames := SortSet(JpgNames(listing));
    if frames == [] {
      return NoFrames;
    }
    var count := PreviewCount(numPreview, |frames|);
    ghost var visited := frames[..count];
    ghost var whole := Walk(visited, listing, decodable, key, 0);
    var shown: seq<string> := [];
    var unreadable: seq<string> := [];
    var cancelled := false;
    assert visited[0..] == visited;
    for i := 0 to count
      invariant !cancelled
      invariant whole == Then(shown, unreadable, Walk(visited[i..], listing, decodable, key, |shown|))
    {
      var name := frames[i];
      assert name == visited[i];
      if !(name in listing && decodable(listing[name])) {  // cv2.imread gave None
        SkipStep(visited, i, listing, decodable, key, shown, unreadable);
        unreadable := unreadable + [name];
        continue;
      }
      var pressed := key(|shown|);  // cv2.waitKey(0) after the display
      if pressed == QuitKey {
        QuitStep(visited, i, listing, decodable, key, shown, unreadable);
        shown := shown + [name];
        cancelled := true;
        assert whole == Tour(shown, unreadable, cancelled);
        break;
      }
      ShowStep(visited, i, listing, decodable, key, shown, unreadable);
      shown := shown + [name];
    }
    if !cancelled {
      WalkDone(visited, listing, decodable, key, shown, unreadable);
    }
    return Previewed(Tour(shown, unreadable, cancelled));
  }
}
