/**
 * The group-size statistics of the prepared dataset (`statistics.py`): the
 * number of image files per style folder, their total, the minimum, maximum
 * and average group size and the distribution of group sizes.
 */
module Statistics {
  import opened Wrappers
  import opened Seqs
  import opened Ascii

  /** A name in the grouped-data directory: whether it is a directory and, if so, the names it lists. */
  datatype Entry = Entry(name: string, isDir: bool, files: seq<string>)

  /** `f.lower().endswith((".jpg", ".jpeg", ".png"))`. */
  predicate IsImageFile(f: string)
  {
    var l := Lower(f);
    EndsWith(l, ".jpg") || EndsWith(l, ".jpeg") || EndsWith(l, ".png")
  }

  /** Lower-casing twice is lower-casing once. */
  lemma LowerIdempotent(s: string)
    ensures Lower(Lower(s)) == Lower(s)
  {
    LowerNoUpper(Lower(s));
  }

  /** The extension test ignores case: a name and its lower-cased form are counted alike. */
  lemma ImageFileIgnoresCase(f: string)
    ensures IsImageFile(Lower(f)) <==> IsImageFile(f)
  {
    LowerIdempotent(f);
  }

  /** `len(image_files)` for one folder. */
  function ImageCount(files: seq<string>): (n: nat)
    ensures n <= |files|
  {
    |Filter(files, IsImageFile)|
  }

  /** A listed name is among the counted image files exactly when it passes the extension test. */
  lemma ImageFilesChosen(files: seq<string>, i: nat)
    requires i < |files|
    ensures files[i] in Filter(files, IsImageFile) <==> IsImageFile(files[i])
  {
    if IsImageFile(files[i]) {
      FilterKeeps(files, IsImageFile, i);
    }
  }

  predicate IsDir(e: Entry)
  {
    e.isDir
  }

  /** `style_counts`: one count per style directory, in listing order. */
  function StyleCounts(entries: seq<Entry>): (counts: seq<int>)
    ensures |counts| <= |entries|
  {
    if entries == [] then []
    else
      var e := entries[|entries| - 1];
      StyleCounts(entries[..|entries| - 1]) + if e.isDir then [ImageCount(e.files)] else []
  }

  /** The counts are those of the directories of the listing, one by one. */
  lemma {:induction false} StyleCountsOfDirs(entries: seq<Entry>)
    ensures |StyleCounts(entries)| == |Filter(entries, IsDir)|
    ensures forall j :: 0 <= j < |StyleCounts(entries)| ==>
      StyleCounts(entries)[j] == ImageCount(Filter(entries, IsDir)[j].files)
  {
    if entries != [] {
      StyleCountsOfDirs(entries[..|entries| - 1]);
    }
  }

  /** The counting loop: `style_counts.append(count)` and `total_images += count` per directory. */
  method CountImages(entries: seq<Entry>) returns (styleCounts: seq<int>, totalImages: int)
    ensures styleCounts == StyleCounts(entries)
    ensures totalImages == Sum(styleCounts)
  {
    styleCounts, totalImages := [], 0;
    for i := 0 to |entries|
      invariant styleCounts == StyleCounts(entries[..i])
      invariant totalImages == Sum(styleCounts)
    {
      var e := entries[i];
      assert entries[..i + 1][..i] == entries[..i] && entries[..i + 1][i] == e;
      if !e.isDir {
        continue;
      }
      var count := ImageCount(e.files);
      styleCounts := styleCounts + [count];
      totalImages := totalImages + count;
    }
    assert entries[..|entries|] == entries;
  }

  /** Every count is between zero and the number of names in its folder. */
  lemma StyleCountsBounds(entries: seq<Entry>, j: nat)
    requires j < |StyleCounts(entries)|
    ensures j < |Filter(entries, IsDir)|
    ensures 0 <= StyleCounts(entries)[j] <= |Filter(entries, IsDir)[j].files|
  {
    StyleCountsOfDirs(entries);
  }

  /** A listing without directories has no counts, so its total is zero. */
  lemma NoDirsNoCounts(entries: seq<Entry>)
    requires forall i :: 0 <= i < |entries| ==> !entries[i].isDir
    ensures StyleCounts(entries) == [] && Sum(StyleCounts(entries)) == 0
  {
    FilterNone(entries, IsDir);
    StyleCountsOfDirs(entries);
  }

  /** A value `d` of `sorted(Counter(style_counts).items())`: a group size and how many groups have it. */
  type Histogram = seq<(int, nat)>

  /** The statistics printed when there is at least one style folder. */
  datatype Summary = Summary(numCategories: nat, avgSize: real, minSize: int, maxSize: int, distribution: Histogram)

  /** The statistics of `style_counts`, or `None` when there is no style folder. */
  function Summarize(counts: seq<int>): (r: Option<Summary>)
    ensures r.None? <==> counts == []
    ensures r.Some? ==>
      && r.value.numCategories == |counts|
      && r.value.minSize in counts && r.value.maxSize in counts
      && forall j :: 0 <= j < |counts| ==> r.value.minSize <= counts[j] <= r.value.maxSize
  {
    if counts == [] then None
    else Some(Summary(|counts|, Sum(counts) as real / |counts| as real, Min(counts), Max(counts), Distribution(counts)))
  }

  /** The average lies between the minimum and the maximum. */
  lemma AverageBetween(counts: seq<int>)
    requires counts != []
    ensures var s := Summarize(counts).value; s.minSize as real <= s.avgSize <= s.maxSize as real
  {
    var s := Summarize(counts).value;
    SumBetween(counts, s.minSize, s.maxSize);
    DivBounds(Sum(counts), |counts|, s.minSize, s.maxSize);
  }

  /** `n * lo <= t <= n * hi` bounds the exact quotient `t / n` by `lo` and `hi`. */
  lemma DivBounds(t: int, n: nat, lo: int, hi: int)
    requires n > 0 && n * lo <= t <= n * hi
    ensures lo as real <= t as real / n as real <= hi as real
  {
    var q := t as real / n as real;
    assert q * n as real == t as real;
    assert (lo as real) * (n as real) <= q * (n as real);
    assert q * (n as real) <= (hi as real) * (n as real);
  }

  /**
   * `sorted(Counter(counts).items())`: the distinct values of `counts` in
   * ascending order, each with its number of occurrences.
   */
  function Distribution(counts: seq<int>): (d: Histogram)
    ensures |d| <= |counts|
    decreases |counts|
  {
    if counts == [] then []
    else
      var m := Min(counts);
      RemoveAllCount(counts, m);
      [(m, multiset(counts)[m])] + Distribution(RemoveAll(counts, m))
  }

  /** The keys of a histogram. */
  function Keys(d: Histogram): (ks: seq<int>)
    ensures |ks| == |d|
    ensures forall j :: 0 <= j < |d| ==> ks[j] == d[j].0
  {
    if d == [] then [] else [d[0].0] + Keys(d[1..])
  }

  /** The first entry of the distribution is the smallest count; the rest is the distribution of the others. */
  lemma DistributionHead(counts: seq<int>)
    requires counts != []
    ensures var m := Min(counts);
      Distribution(counts) == [(m, multiset(counts)[m])] + Distribution(RemoveAll(counts, m))
    ensures |RemoveAll(counts, Min(counts))| < |counts|
    ensures forall j :: 0 <= j < |RemoveAll(counts, Min(counts))| ==> Min(counts) < RemoveAll(counts, Min(counts))[j]
  {
    var m := Min(counts);
    var rest := RemoveAll(counts, m);
    RemoveAllCount(counts, m);
    forall j | 0 <= j < |rest| ensures m < rest[j] {
      assert rest[j] in counts;
    }
  }

  /** The distribution is emitted in strictly ascending order of group size, above any lower bound of the counts. */
  lemma {:induction false} DistributionAscending(counts: seq<int>, lo: int)
    requires forall j :: 0 <= j < |counts| ==> lo <= counts[j]
    ensures Ascending(Keys(Distribution(counts)))
    ensures forall j :: 0 <= j < |Distribution(counts)| ==> lo <= Distribution(counts)[j].0
    decreases |counts|
  {
    if counts != [] {
      var m := Min(counts);
      var rest := RemoveAll(counts, m);
      DistributionHead(counts);
      DistributionAscending(rest, m + 1);
      var d := Distribution(counts);
      var dr := Distribution(rest);
      assert d[1..] == dr;
      assert Keys(d) == [m] + Keys(dr);
      AscendingCons(m, Keys(dr));
    }
  }

  /** The keys of the distribution are exactly the distinct group sizes, and each comes with its number of groups. */
  lemma {:induction false} DistributionCounts(counts: seq<int>)
    ensures forall x :: x in Keys(Distribution(counts)) <==> x in counts
    ensures forall j :: 0 <= j < |Distribution(counts)| ==>
      Distribution(counts)[j].1 == multiset(counts)[Distribution(counts)[j].0] > 0
    decreases |counts|
  {
    if counts != [] {
      var m := Min(counts);
      var rest := RemoveAll(counts, m);
      RemoveAllCount(counts, m);
      DistributionHead(counts);
      DistributionCounts(rest);
      var d := Distribution(counts);
      var dr := Distribution(rest);
      assert d == [(m, multiset(counts)[m])] + dr;
      assert Keys(d) == [m] + Keys(dr);
      forall x ensures x in Keys(d) <==> x in counts {
        if x != m {
          assert x in rest <==> x in counts by {
            if x in counts {
              var i :| 0 <= i < |counts| && counts[i] == x;
              RemoveAllKeeps(counts, m, i);
            }
          }
        }
      }
      forall j | 0 <= j < |d| ensures d[j].1 == multiset(counts)[d[j].0] > 0 {
        if j > 0 {
          assert d[j] == dr[j - 1];
          assert dr[j - 1].0 in Keys(dr);
          assert dr[j - 1].0 != m;
        }
      }
    }
  }

  /** The total of the values of a histogram. */
  function ValueSum(d: Histogram): nat
  {
    if d == [] then 0 else d[0].1 + ValueSum(d[1..])
  }

  /** The numbers of groups in the distribution add up to the number of style categories. */
  lemma {:induction false} DistributionTotal(counts: seq<int>)
    ensures ValueSum(Distribution(counts)) == |counts|
    decreases |counts|
  {
    if counts != [] {
      var m := Min(counts);
      var rest := RemoveAll(counts, m);
      RemoveAllCount(counts, m);
      DistributionTotal(rest);
      var d := Distribution(counts);
      assert d[1..] == Distribution(rest);
    }
  }

  /**
   * The script up to its output: the total number of images and, when there
   * is a style folder, the statistics of the counts.
   */
  method StyleStatistics(entries: seq<Entry>) returns (totalImages: int, stats: Option<Summary>)
    ensures totalImages == Sum(StyleCounts(entries))
    ensures stats == Summarize(StyleCounts(entries))
    ensures stats.None? <==> forall i :: 0 <= i < |entries| ==> !entries[i].isDir
  {
    var styleCounts;
    styleCounts, totalImages := CountImages(entries);
    DirsCounted(entries);
    stats := Summarize(styleCounts);
  }

  /** There are counts exactly when some entry is a directory. */
  lemma DirsCounted(entries: seq<Entry>)
    ensures StyleCounts(entries) == [] <==> forall i :: 0 <= i < |entries| ==> !entries[i].isDir
  {
    if exists i :: 0 <= i < |entries| && entries[i].isDir {
      var i :| 0 <= i < |entries| && entries[i].isDir;
      FilterKeeps(entries, IsDir, i);
    } else {
      FilterNone(entries, IsDir);
    }
    StyleCountsOfDirs(entries);
  }
}
