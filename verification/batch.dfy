/** The batch driver (`main`, watermark.py lines 145-172): refuse a missing
    input, derive the output directory, then either stamp the one file or
    walk the directory tree, mirroring each file's relative directory below
    the output directory, and count the files that were written.

    The walk is the list of files it reports, each as the directory below
    the input it was found in and its name; the order is whatever the file
    system gives, so the facts stated about the count do not depend on it.
    Whether stamping one file succeeds is the parameter `ok`: it stands for
    `ProcessImageFile(...).Some?`, whose path is then the entry's
    destination (`ProcessedCopyIsDestination`). */
module Batch {
  import opened Wrappers
  import opened Paths
  import Dates
  import Compositor
  import Processor

  /** A file reported by the walk: its directory relative to the input and
      its name. */
  datatype Entry = Entry(rel: Path, name: string)

  /** How a run ends: input missing (exit status 1, nothing processed), or
      done with the number of files stamped, the output directory, and the
      files written, in the order they were written. */
  datatype Outcome =
    | InputMissing
    | Done(processed: nat, outputDir: Path, written: seq<Path>)

  /** The path of an entry's file. */
  function SourceFile(input: Path, e: Entry): Path {
    input + e.rel + [e.name]
  }

  /** Where an entry's watermarked copy goes: the same relative directory
      below the output directory, under the output name. */
  function Destination(outputDir: Path, e: Entry): (p: Path)
    ensures Parent(p) == outputDir + e.rel && Name(p) == OutName(e.name)
  {
    ParentNameJoin(outputDir + e.rel, OutName(e.name));
    outputDir + e.rel + [OutName(e.name)]
  }

  /** The processor writes an entry's copy where the walk expects it:
      stamping the entry's file into the mirrored directory, whenever it
      succeeds, yields the entry's destination. */
  lemma ProcessedCopyIsDestination(input: Path, outputDir: Path, e: Entry,
                                   cfg: Processor.Config,
                                   decoded: Option<Processor.Decoded>,
                                   mtime: Dates.DateTime,
                                   measure: string -> (int, int),
                                   getrgb: string -> Option<Compositor.Rgb>,
                                   saved: bool)
    requires Dates.Valid(mtime)
    ensures var r := Processor.ProcessImageFile(SourceFile(input, e), outputDir + e.rel, cfg,
                                                decoded, mtime, measure, getrgb, saved);
      r.Some? ==> r.value.path == Destination(outputDir, e)
  {
    assert Name(SourceFile(input, e)) == e.name;
  }

  /** Mirroring: the copy lies in the entry's relative directory below the
      output directory, and its name is the output name of the entry's. */
  lemma DestinationMirrors(outputDir: Path, e: Entry)
    ensures Parent(Destination(outputDir, e)) == outputDir + e.rel
    ensures Name(Destination(outputDir, e)) == OutName(e.name)
    ensures RelativeTo(Parent(Destination(outputDir, e)), outputDir) == Some(e.rel)
  {
    RelativeToJoin(outputDir, e.rel);
  }

  /** The entries of `es` that satisfy `keep`, in order. */
  function Filter(es: seq<Entry>, keep: Entry -> bool): (r: seq<Entry>)
    ensures |r| <= |es|
    ensures forall x :: x in r ==> x in es && keep(x)
    ensures forall x :: x in es && keep(x) ==> x in r
  {
    if |es| == 0 then []
    else
      var init := Filter(es[..|es| - 1], keep);
      var last := es[|es| - 1];
      assert es == es[..|es| - 1] + [last];
      if keep(last) then init + [last] else init
  }

  /** Entries the walk hands to the processor: those with an image name. */
  const IsImage: Entry -> bool := (e: Entry) => IsImageName(e.name)

  /** Entries that add one to the count: image names whose processing
      succeeds. */
  function Counted(input: Path, ok: Path -> bool): Entry -> bool {
    (e: Entry) => IsImageName(e.name) && ok(SourceFile(input, e))
  }

  function Destinations(outputDir: Path, es: seq<Entry>): (r: seq<Path>)
    ensures |r| == |es|
    ensures forall k :: 0 <= k < |es| ==> r[k] == Destination(outputDir, es[k])
  {
    seq(|es|, k requires 0 <= k < |es| => Destination(outputDir, es[k]))
  }

  /** The directory walk (lines 160-170): every reported file with an image
      name is processed into the output directory joined with its relative
      directory, and each success adds one to the count. */
  method WalkDirectory(input: Path, outputDir: Path, entries: seq<Entry>, ok: Path -> bool)
    returns (processed: nat, written: seq<Path>)
    ensures processed == |written|
    ensures written == Destinations(outputDir, Filter(entries, Counted(input, ok)))
  {
    processed := 0;
    written := [];
    var i := 0;
    while i < |entries|
      invariant 0 <= i <= |entries|
      invariant written == Destinations(outputDir, Filter(entries[..i], Counted(input, ok)))
      invariant processed == |written|
    {
      var e := entries[i];
      var root := input + e.rel;
      RelativeToJoin(input, e.rel);
      var rel := RelativeTo(root, input).value;
      var p := root + [e.name];
      assert p == SourceFile(input, e) && Name(p) == e.name;
      assert Counted(input, ok)(e) <==> IsImageFile(p) && ok(p);
      WalkStep(outputDir, entries, i, Counted(input, ok));
      if IsImageFile(p) {
        var outDir := outputDir + rel;
        if ok(p) {
          processed := processed + 1;
          written := written + [outDir + [OutName(Name(p))]];
        }
      }
      i := i + 1;
    }
    assert entries[..|entries|] == entries;
  }

  /** One more entry of the walk: the filtered prefix grows by that entry
      exactly when it is kept. */
  lemma FilterSnoc(es: seq<Entry>, i: nat, keep: Entry -> bool)
    requires i < |es|
    ensures Filter(es[..i + 1], keep)
         == Filter(es[..i], keep) + (if keep(es[i]) then [es[i]] else [])
  {
    assert es[..i + 1][..i] == es[..i];
  }

  lemma DestinationsSnoc(outputDir: Path, es: seq<Entry>, e: Entry)
    ensures Destinations(outputDir, es + [e])
         == Destinations(outputDir, es) + [Destination(outputDir, e)]
  {
    var lhs := Destinations(outputDir, es + [e]);
    var rhs := Destinations(outputDir, es) + [Destination(outputDir, e)];
    assert |lhs| == |rhs|;
    forall k | 0 <= k < |lhs|
      ensures lhs[k] == rhs[k]
    {
      if k < |es| {
        assert (es + [e])[k] == es[k];
      }
    }
  }

  /** One step of the walk: the destinations of the kept prefix grow by
      the entry's destination exactly when the entry is kept. */
  lemma WalkStep(outputDir: Path, es: seq<Entry>, i: nat, keep: Entry -> bool)
    requires i < |es|
    ensures Destinations(outputDir, Filter(es[..i + 1], keep))
         == Destinations(outputDir, Filter(es[..i], keep))
            + (if keep(es[i]) then [Destination(outputDir, es[i])] else [])
  {
    FilterSnoc(es, i, keep);
    if keep(es[i]) {
      DestinationsSnoc(outputDir, Filter(es[..i], keep), es[i]);
    }
  }

  /** `main` after argument parsing.  `present` and `isFile` are what the
      file system says of the input; `entries` is what the walk reports
      when the input is a directory. */
  method Run(input: Path, present: bool, isFile: bool, entries: seq<Entry>, ok: Path -> bool)
    returns (r: Outcome)
    ensures r.InputMissing? <==> !present
    ensures r.Done? ==> r.outputDir == FindOutputDir(input, isFile) && r.processed == |r.written|
    ensures r.Done? && isFile ==>
      r.written == (if IsImageFile(input) && ok(input)
                    then [FindOutputDir(input, true) + [OutName(Name(input))]] else [])
    ensures r.Done? && isFile && !IsImageFile(input) ==> r.processed == 0
    ensures r.Done? && !isFile ==>
      r.written == Destinations(r.outputDir, Filter(entries, Counted(input, ok)))
  {
    if !present {
      return InputMissing;
    }
    var outputDir := FindOutputDir(input, isFile);
    var processed := 0;
    var written := [];
    if isFile {
      if IsImageFile(input) {
        if ok(input) {
          processed := processed + 1;
          written := [outputDir + [OutName(Name(input))]];
        }
      }
    } else {
      processed, written := WalkDirectory(input, outputDir, entries, ok);
    }
    return Done(processed, outputDir, written);
  }

  /** Filtering a concatenation filters each part. */
  lemma {:induction false} FilterConcat(u: seq<Entry>, v: seq<Entry>, keep: Entry -> bool)
    ensures Filter(u + v, keep) == Filter(u, keep) + Filter(v, keep)
    decreases |v|
  {
    if |v| == 0 {
      assert u + v == u;
    } else {
      var v' := v[..|v| - 1];
      assert (u + v)[..|u + v| - 1] == u + v';
      FilterConcat(u, v', keep);
    }
  }

  lemma RemoveLast(a: seq<Entry>)
    requires |a| > 0
    ensures multiset(a[..|a| - 1]) == multiset(a) - multiset{a[|a| - 1]}
  {
    assert a == a[..|a| - 1] + [a[|a| - 1]];
  }

  lemma RemoveAt(b: seq<Entry>, k: nat)
    requires k < |b|
    ensures multiset(b[..k] + b[k + 1..]) == multiset(b) - multiset{b[k]}
  {
    assert b == b[..k] + [b[k]] + b[k + 1..];
    assert multiset(b) == multiset(b[..k]) + multiset{b[k]} + multiset(b[k + 1..]);
  }

  /** The files filtered out of a walk do not depend on the order the walk
      reports them in: any reordering keeps the same files. */
  lemma {:induction false} FilterPermutation(a: seq<Entry>, b: seq<Entry>, keep: Entry -> bool)
    requires multiset(a) == multiset(b)
    ensures multiset(Filter(a, keep)) == multiset(Filter(b, keep))
    decreases |a|
  {
    if |a| == 0 {
      assert |b| == |multiset(b)| == 0;
    } else {
      var x := a[|a| - 1];
      var a' := a[..|a| - 1];
      assert a == a' + [x];
      assert x in multiset(b);
      var k :| 0 <= k < |b| && b[k] == x;
      var b' := b[..k] + b[k + 1..];
      assert b == b[..k] + [x] + b[k + 1..];
      RemoveLast(a);
      RemoveAt(b, k);
      FilterPermutation(a', b', keep);
      FilterConcat(b[..k], [x], keep);
      FilterConcat(b[..k] + [x], b[k + 1..], keep);
      FilterConcat(b[..k], b[k + 1..], keep);
      FilterConcat(a', [x], keep);
    }
  }

  /** Order independence of the count: two walks that report the same
      files in different orders stamp the same number of them. */
  lemma CountOrderIndependent(input: Path, a: seq<Entry>, b: seq<Entry>, ok: Path -> bool)
    requires multiset(a) == multiset(b)
    ensures |Filter(a, Counted(input, ok))| == |Filter(b, Counted(input, ok))|
  {
    FilterPermutation(a, b, Counted(input, ok));
    assert |multiset(Filter(a, Counted(input, ok)))| == |multiset(Filter(b, Counted(input, ok)))|;
  }

  /** A stronger filter keeps no more entries. */
  lemma {:induction false} FilterMonotone(es: seq<Entry>, p: Entry -> bool, q: Entry -> bool)
    requires forall x :: x in es && p(x) ==> q(x)
    ensures |Filter(es, p)| <= |Filter(es, q)|
    decreases |es|
  {
    if |es| > 0 {
      FilterMonotone(es[..|es| - 1], p, q);
    }
  }

  /** Filters that agree on the entries keep the same entries. */
  lemma {:induction false} FilterCongruent(es: seq<Entry>, p: Entry -> bool, q: Entry -> bool)
    requires forall x :: x in es ==> p(x) == q(x)
    ensures Filter(es, p) == Filter(es, q)
    decreases |es|
  {
    if |es| > 0 {
      FilterCongruent(es[..|es| - 1], p, q);
    }
  }

  /** A filter implied by another keeps strictly fewer entries when some
      entry passes the weaker filter but not the stronger one. */
  lemma {:induction false} FilterStrict(es: seq<Entry>, p: Entry -> bool, q: Entry -> bool, x: Entry)
    requires forall y :: y in es && p(y) ==> q(y)
    requires x in es && q(x) && !p(x)
    ensures |Filter(es, p)| < |Filter(es, q)|
    decreases |es|
  {
    var init := es[..|es| - 1];
    assert es == init + [es[|es| - 1]];
    if es[|es| - 1] == x {
      FilterMonotone(init, p, q);
    } else {
      assert x in init;
      FilterStrict(init, p, q, x);
    }
  }

  /** The count never exceeds the number of image files, which never
      exceeds the number of files; it equals the number of image files
      exactly when every image file is processed successfully. */
  lemma CountBounds(input: Path, entries: seq<Entry>, ok: Path -> bool)
    ensures |Filter(entries, Counted(input, ok))| <= |Filter(entries, IsImage)| <= |entries|
    ensures (forall e :: e in entries && IsImageName(e.name) ==> ok(SourceFile(input, e))) <==>
      |Filter(entries, Counted(input, ok))| == |Filter(entries, IsImage)|
  {
    FilterMonotone(entries, Counted(input, ok), IsImage);
    if forall e :: e in entries && IsImageName(e.name) ==> ok(SourceFile(input, e)) {
      FilterCongruent(entries, Counted(input, ok), IsImage);
    } else {
      var e :| e in entries && IsImageName(e.name) && !ok(SourceFile(input, e));
      FilterStrict(entries, Counted(input, ok), IsImage, e);
    }
  }

  /** Mirroring: every written file is the watermarked copy of a reported
      image file whose processing succeeded, placed in the same relative
      directory below the output directory ... */
  lemma WrittenComesFromInput(input: Path, outputDir: Path, entries: seq<Entry>,
                              ok: Path -> bool, k: nat)
    requires k < |Filter(entries, Counted(input, ok))|
    ensures var e := Filter(entries, Counted(input, ok))[k];
      && e in entries && IsImageName(e.name) && ok(SourceFile(input, e))
      && Destinations(outputDir, Filter(entries, Counted(input, ok)))[k]
         == outputDir + e.rel + [OutName(e.name)]
  {
    var kept := Filter(entries, Counted(input, ok));
    assert kept[k] in kept;
    assert Counted(input, ok)(kept[k]);
  }

  /** ... and every such file is written. */
  lemma InputReachesWritten(input: Path, outputDir: Path, entries: seq<Entry>,
                            ok: Path -> bool, e: Entry)
    requires e in entries && IsImageName(e.name) && ok(SourceFile(input, e))
    ensures outputDir + e.rel + [OutName(e.name)]
            in Destinations(outputDir, Filter(entries, Counted(input, ok)))
  {
    var kept := Filter(entries, Counted(input, ok));
    assert Counted(input, ok)(e);
    var k :| 0 <= k < |kept| && kept[k] == e;
    assert Destinations(outputDir, kept)[k] == Destination(outputDir, e);
  }

  /** Two entries that are both kept survive the filter unchanged. */
  lemma FilterKeepsPair(es: seq<Entry>, keep: Entry -> bool)
    requires |es| == 2 && keep(es[0]) && keep(es[1])
    ensures Filter(es, keep) == es
  {
    FilterSnoc(es, 0, keep);
    FilterSnoc(es, 1, keep);
    assert es[..0] == [] && es[..2] == es;
  }

  lemma DestinationsOfPair(outputDir: Path, e0: Entry, e1: Entry)
    ensures Destinations(outputDir, [e0, e1])
         == [Destination(outputDir, e0), Destination(outputDir, e1)]
  {
  }

  /** The tree of the directory example: `a.jpg` at the top and
      `sub/b.png` one level down. */
  const ExampleTree: seq<Entry> := [Entry([], "a.jpg"), Entry(["sub"], "b.png")]

  lemma TopEntryCounted(input: Path, ok: Path -> bool)
    requires ok(input + ["a.jpg"])
    ensures Counted(input, ok)(ExampleTree[0])
  {
    var e := ExampleTree[0];
    assert e == Entry([], "a.jpg");
    assert SourceFile(input, e) == input + ["a.jpg"] by {
      assert input + [] + ["a.jpg"] == input + ["a.jpg"];
    }
    JpgExampleName();
  }

  lemma NestedEntryCounted(input: Path, ok: Path -> bool)
    requires ok(input + ["sub", "b.png"])
    ensures Counted(input, ok)(ExampleTree[1])
  {
    var e := ExampleTree[1];
    assert e == Entry(["sub"], "b.png");
    assert SourceFile(input, e) == input + ["sub", "b.png"] by {
      assert input + ["sub"] + ["b.png"] == input + ["sub", "b.png"];
    }
    PngExampleName();
  }

  /** Both files of the example tree are counted when both succeed. */
  lemma ExampleTreeCounted(input: Path, ok: Path -> bool)
    requires ok(input + ["a.jpg"]) && ok(input + ["sub", "b.png"])
    ensures Filter(ExampleTree, Counted(input, ok)) == ExampleTree
  {
    TopEntryCounted(input, ok);
    NestedEntryCounted(input, ok);
    FilterKeepsPair(ExampleTree, Counted(input, ok));
  }

  lemma ExampleTopDestination(outputDir: Path)
    ensures Destination(outputDir, ExampleTree[0]) == outputDir + ["a_wm.jpg"]
  {
    JpgExampleName();
    assert outputDir + [] + ["a_wm.jpg"] == outputDir + ["a_wm.jpg"];
  }

  lemma ExampleNestedDestination(outputDir: Path)
    ensures Destination(outputDir, ExampleTree[1]) == outputDir + ["sub", "b_wm.png"]
  {
    PngExampleName();
    assert outputDir + ["sub"] + ["b_wm.png"] == outputDir + ["sub", "b_wm.png"];
  }

  /** Directory example: `a.jpg` and `sub/b.png` below the input become
      `a_wm.jpg` and `sub/b_wm.png` below the output directory, and the
      count is two. */
  lemma DirectoryExample(input: Path, ok: Path -> bool)
    requires ok(input + ["a.jpg"]) && ok(input + ["sub", "b.png"])
    ensures var outputDir := FindOutputDir(input, false);
      Destinations(outputDir, Filter(ExampleTree, Counted(input, ok)))
        == [outputDir + ["a_wm.jpg"], outputDir + ["sub", "b_wm.png"]]
  {
    var outputDir := FindOutputDir(input, false);
    ExampleTreeCounted(input, ok);
    DestinationsOfPair(outputDir, ExampleTree[0], ExampleTree[1]);
    ExampleTopDestination(outputDir);
    ExampleNestedDestination(outputDir);
  }
}
