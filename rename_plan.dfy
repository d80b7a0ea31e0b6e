/**
 * `copy_files`: the files of the time index are copied into the output
 * folder in ascending key order, each under its output file name with its
 * 1-based position. The copy itself is a file-system effect; here it is an
 * entry appended to a log, and a dry run leaves the log empty.
 */
module RenamePlan {
  import opened Wrappers
  import opened Strings
  import opened Naming
  import opened Sequences
  import TimeIndex

  /** A finite set of integers has a least element. */
  lemma {:induction false} MinExists(s: set<int>)
    requires s != {}
    ensures exists m :: m in s && forall x :: x in s ==> m <= x
    decreases |s|
  {
    assert exists y :: y in s by {
      if forall y :: y !in s {
        assert false;
      }
    }
    var y :| y in s;
    var rest := s - {y};
    if rest != {} {
      MinExists(rest);
      var m :| m in rest && forall x :: x in rest ==> m <= x;
      var least := if y < m then y else m;
      forall x | x in s
        ensures least <= x
      {
        if x != y {
          assert x in rest;
        }
      }
    } else {
      assert forall x :: x in s ==> x == y || x in rest;
    }
  }

  function MinOf(s: set<int>): (m: int)
    requires s != {}
    ensures m in s && forall x :: x in s ==> m <= x
  {
    MinExists(s);
    var m :| m in s && forall x :: x in s ==> m <= x;
    m
  }

  /** `sorted(input_files)`: the keys of the index in ascending order. */
  function SortedKeys(s: set<int>): (r: seq<int>)
    ensures |r| == |s|
    ensures forall x :: x in r <==> x in s
    decreases |s|
  {
    if s == {} then []
    else
      var m := MinOf(s);
      [m] + SortedKeys(s - {m})
  }

  /** The keys come out strictly ascending. */
  lemma {:induction false} SortedKeysAscending(s: set<int>)
    ensures forall i, j :: 0 <= i < j < |SortedKeys(s)| ==> SortedKeys(s)[i] < SortedKeys(s)[j]
    decreases |s|
  {
    if s != {} {
      var m := MinOf(s);
      var rest := SortedKeys(s - {m});
      SortedKeysAscending(s - {m});
      assert SortedKeys(s) == [m] + rest;
      forall i, j | 0 <= i < j < |SortedKeys(s)|
        ensures SortedKeys(s)[i] < SortedKeys(s)[j]
      {
        assert SortedKeys(s)[j] == rest[j - 1];
        assert rest[j - 1] in s - {m};
        if 0 < i {
          assert SortedKeys(s)[i] == rest[i - 1];
        }
      }
    }
  }

  /** One line of the plan: the file copied and where it goes. */
  datatype Entry = Entry(source: string, destination: string)

  /**
   * What `copy_files` does to the index `files`: the file under the i-th
   * smallest key goes to `folder + '/'` and its output name for position i.
   */
  function Plan(year: string, event: string, photographer: Option<string>,
                files: map<int, string>, folder: string): seq<Entry>
  {
    var keys := SortedKeys(files.Keys);
    var mask := GetIndexMask(|files|);
    seq(|keys|, i requires 0 <= i < |keys| =>
      Entry(files[keys[i]], folder + "/" + OutputFileName(year, event, photographer, mask, i, files[keys[i]])))
  }

  lemma PlanEntry(year: string, event: string, photographer: Option<string>,
                  files: map<int, string>, folder: string, i: nat)
    requires i < |SortedKeys(files.Keys)|
    ensures |Plan(year, event, photographer, files, folder)| == |SortedKeys(files.Keys)|
    ensures var k := SortedKeys(files.Keys)[i];
            Plan(year, event, photographer, files, folder)[i]
            == Entry(files[k], folder + "/" + OutputFileName(year, event, photographer, GetIndexMask(|files|), i, files[k]))
  {
  }

  /** One more entry extends a prefix of the plan by the next key's copy. */
  lemma PlanStep(year: string, event: string, photographer: Option<string>,
                 files: map<int, string>, folder: string, i: nat, done: seq<Entry>)
    requires i < |SortedKeys(files.Keys)|
    requires |Plan(year, event, photographer, files, folder)| == |SortedKeys(files.Keys)|
    requires done == Plan(year, event, photographer, files, folder)[..i]
    ensures var k := SortedKeys(files.Keys)[i];
            done + [Entry(files[k], folder + "/" + OutputFileName(year, event, photographer, GetIndexMask(|files|), i, files[k]))]
            == Plan(year, event, photographer, files, folder)[..i + 1]
  {
    PlanEntry(year, event, photographer, files, folder, i);
    PrefixStep(Plan(year, event, photographer, files, folder), i);
  }

  /** The whole plan, as the last of its prefixes. */
  lemma PlanWhole(year: string, event: string, photographer: Option<string>,
                  files: map<int, string>, folder: string)
    ensures |Plan(year, event, photographer, files, folder)| == |SortedKeys(files.Keys)|
    ensures Plan(year, event, photographer, files, folder)[..0] == []
    ensures Plan(year, event, photographer, files, folder)[..|SortedKeys(files.Keys)|]
            == Plan(year, event, photographer, files, folder)
  {
  }

  /**
   * `copy_files`: returns the entries in the order the names are printed,
   * and the copies made; under a dry run no copy is made but the same names
   * are produced.
   */
  method CopyFiles(year: string, event: string, photographer: Option<string>,
                   inputFiles: map<int, string>, outputFolder: string, dryRun: bool)
    returns (plan: seq<Entry>, copies: seq<Entry>)
    ensures plan == Plan(year, event, photographer, inputFiles, outputFolder)
    ensures copies == if dryRun then [] else plan
  {
    var fileCount := |inputFiles|;
    var indexMask := GetIndexMask(fileCount);
    var keys := SortedKeys(inputFiles.Keys);
    PlanWhole(year, event, photographer, inputFiles, outputFolder);
    plan := [];
    copies := [];
    for index := 0 to |keys|
      invariant plan == Plan(year, event, photographer, inputFiles, outputFolder)[..index]
      invariant copies == if dryRun then [] else plan
    {
      var inputFile := inputFiles[keys[index]];
      var outputFileName := OutputFileName(year, event, photographer, indexMask, index, inputFile);
      var outputFile := outputFolder + "/" + outputFileName;
      PlanStep(year, event, photographer, inputFiles, outputFolder, index, plan);
      if !dryRun {
        copies := copies + [Entry(inputFile, outputFile)];
      }
      plan := plan + [Entry(inputFile, outputFile)];
    }
  }

  /**
   * The plan walks the index in ascending key order: one entry per key,
   * the i-th entry copying the file under the i-th smallest key.
   */
  lemma PlanFollowsKeys(year: string, event: string, photographer: Option<string>,
                        files: map<int, string>, folder: string)
    ensures var plan := Plan(year, event, photographer, files, folder);
            var keys := SortedKeys(files.Keys);
            && |plan| == |keys| == |files|
            && (forall k :: k in files <==> k in keys)
            && (forall i, j :: 0 <= i < j < |keys| ==> keys[i] < keys[j])
            && (forall i :: 0 <= i < |plan| ==> plan[i].source == files[keys[i]])
  {
    var keys := SortedKeys(files.Keys);
    SortedKeysAscending(files.Keys);
    forall i | 0 <= i < |keys|
      ensures Plan(year, event, photographer, files, folder)[i].source == files[keys[i]]
    {
      PlanEntry(year, event, photographer, files, folder, i);
    }
  }

  /** Every file of the index is copied by some entry of the plan. */
  lemma PlanCoversIndex(year: string, event: string, photographer: Option<string>,
                        files: map<int, string>, folder: string, k: int)
    requires k in files
    ensures var plan := Plan(year, event, photographer, files, folder);
            exists i :: 0 <= i < |plan| && plan[i].source == files[k]
  {
    var keys := SortedKeys(files.Keys);
    var i :| 0 <= i < |keys| && keys[i] == k;
    assert Plan(year, event, photographer, files, folder)[i].source == files[k];
  }

  /** The i-th entry's destination: the folder, a slash, the output name for position i. */
  lemma PlanDestination(year: string, event: string, photographer: Option<string>,
                        files: map<int, string>, folder: string, i: nat, e: Entry)
    requires i < |Plan(year, event, photographer, files, folder)|
    requires e == Plan(year, event, photographer, files, folder)[i]
    ensures e.destination == (folder + "/") + OutputFileName(year, event, photographer, GetIndexMask(|files|), i, e.source)
  {
    PlanEntry(year, event, photographer, files, folder, i);
  }

  /**
   * The shape of a destination path: the folder and a slash, then the index
   * mask applied to i + 1 (whose digits read i + 1, by `FormatIndex`), and at
   * the very end the source's extension, lower-cased.
   */
  ghost predicate DestinationShape(mask: IndexMask, i: nat, folder: string, source: string, destination: string) {
    Framed(destination, folder + "/", FormatIndex(mask, i + 1), Lower(SplitExt(source).1))
  }

  /** Every path built from the folder and an output name has that shape. */
  lemma DestinationParts(year: string, event: string, photographer: Option<string>, mask: IndexMask,
                         i: nat, folder: string, source: string, destination: string)
    requires destination == (folder + "/") + OutputFileName(year, event, photographer, mask, i, source)
    ensures DestinationShape(mask, i, folder, source, destination)
  {
    var head := FormatIndex(mask, i + 1);
    var rest := " - " + event + " " + year + PhotographerSuffix(photographer);
    var ext := Lower(SplitExt(source).1);
    assert OutputFileName(year, event, photographer, mask, i, source) == head + (rest + ext);
    FramedAppend(folder + "/", head, rest, ext);
  }

  /**
   * The i-th entry goes into the output folder under a name that opens with
   * the index mask applied to i + 1, so its leading digits read i + 1, and
   * that ends in its source's extension, lower-cased.
   */
  lemma PlanPositions(year: string, event: string, photographer: Option<string>,
                      files: map<int, string>, folder: string, i: nat, e: Entry)
    requires i < |Plan(year, event, photographer, files, folder)|
    requires e == Plan(year, event, photographer, files, folder)[i]
    ensures DestinationShape(GetIndexMask(|files|), i, folder, e.source, e.destination)
  {
    PlanDestination(year, event, photographer, files, folder, i, e);
    DestinationParts(year, event, photographer, GetIndexMask(|files|), i, folder, e.source, e.destination);
  }

  /** No two entries of a plan share a destination. */
  lemma DestinationsDistinct(year: string, event: string, photographer: Option<string>,
                             files: map<int, string>, folder: string, i: nat, j: nat)
    requires i < j < |Plan(year, event, photographer, files, folder)|
    ensures Plan(year, event, photographer, files, folder)[i].destination
            != Plan(year, event, photographer, files, folder)[j].destination
  {
    var plan := Plan(year, event, photographer, files, folder);
    var mask := GetIndexMask(|files|);
    var a := OutputFileName(year, event, photographer, mask, i, plan[i].source);
    var b := OutputFileName(year, event, photographer, mask, j, plan[j].source);
    OutputNamesDistinct(year, event, photographer, |files|, i, j, plan[i].source, plan[j].source);
    assert plan[i].destination == (folder + "/") + a;
    assert plan[j].destination == (folder + "/") + b;
    assert plan[i].destination[|folder| + 1..] == a;
    assert plan[j].destination[|folder| + 1..] == b;
  }

  /** The file under a smaller key is copied by an earlier entry. */
  lemma SmallerKeyEarlier(year: string, event: string, photographer: Option<string>,
                          files: map<int, string>, folder: string, s: int, t: int)
    requires s in files && t in files && s < t
    ensures var plan := Plan(year, event, photographer, files, folder);
            exists i, j :: 0 <= i < j < |plan| && plan[i].source == files[s] && plan[j].source == files[t]
  {
    var plan := Plan(year, event, photographer, files, folder);
    var keys := SortedKeys(files.Keys);
    PlanFollowsKeys(year, event, photographer, files, folder);
    var i :| 0 <= i < |keys| && keys[i] == s;
    var j :| 0 <= j < |keys| && keys[j] == t;
    assert plan[i].source == files[s] && plan[j].source == files[t];
  }

  /**
   * When no two files share a time, the plan copies them in time order: a
   * file taken earlier is copied by an earlier entry.
   */
  lemma DistinctTimesInTimeOrder(year: string, event: string, photographer: Option<string>,
                                 es: seq<TimeIndex.Resolved>, folder: string, a: nat, b: nat)
    requires forall i, j :: 0 <= i < j < |es| ==> es[i].time != es[j].time
    requires a < |es| && b < |es| && es[a].time < es[b].time
    ensures var plan := Plan(year, event, photographer, TimeIndex.IndexOf(es), folder);
            exists i, j :: 0 <= i < j < |plan| && plan[i].source == es[a].path && plan[j].source == es[b].path
  {
    TimeIndex.DistinctTimeStored(es, a);
    TimeIndex.DistinctTimeStored(es, b);
    SmallerKeyEarlier(year, event, photographer, TimeIndex.IndexOf(es), folder, es[a].time, es[b].time);
  }
}
