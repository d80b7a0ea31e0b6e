/**
 * `get_input_files`: every listed file goes into one dictionary keyed by the
 * time it was taken. A key that is already in use is bumped by one second
 * until a free one is found (insertion with linear probing), so no file
 * overwrites another.
 */
module TimeIndex {
  import opened Wrappers
  import opened TimeTaken
  import opened Sequences

  /** One listed file and the time `get_time_taken` resolved for it. */
  datatype Resolved = Resolved(path: string, time: int)

  /** The keys of `m` from `t` upward: what is left for the probe to skip. */
  ghost function KeysFrom(m: map<int, string>, t: int): set<int> {
    set j | j in m && t <= j
  }

  /** The inner `while`: the first key from `t` upward that `m` does not use. */
  function Probe(m: map<int, string>, t: int): (k: int)
    ensures t <= k && k !in m
    ensures forall j :: t <= j < k ==> j in m
    decreases KeysFrom(m, t)
  {
    if t in m then
      assert t in KeysFrom(m, t) && t !in KeysFrom(m, t + 1);
      Probe(m, t + 1)
    else t
  }

  /** The three properties of `Probe` pin its result down. */
  lemma ProbeUnique(m: map<int, string>, t: int, k: int)
    requires t <= k && k !in m
    requires forall j :: t <= j < k ==> j in m
    ensures k == Probe(m, t)
  {
  }

  /** The dictionary after inserting the resolved files in order. */
  function IndexOf(es: seq<Resolved>): map<int, string> {
    if es == [] then map[]
    else
      var m := IndexOf(es[..|es| - 1]);
      m[Probe(m, es[|es| - 1].time) := es[|es| - 1].path]
  }

  /** The key each resolved file is stored under, in insertion order. */
  function Slots(es: seq<Resolved>): (ks: seq<int>)
    ensures |ks| == |es|
    ensures forall i :: 0 <= i < |es| ==> es[i].time <= ks[i]
  {
    if es == [] then []
    else
      var init := es[..|es| - 1];
      Slots(init) + [Probe(IndexOf(init), es[|es| - 1].time)]
  }

  lemma IndexOfLast(es: seq<Resolved>)
    requires es != []
    ensures var init := es[..|es| - 1];
            && Slots(es) == Slots(init) + [Probe(IndexOf(init), es[|es| - 1].time)]
            && IndexOf(es) == IndexOf(init)[Probe(IndexOf(init), es[|es| - 1].time) := es[|es| - 1].path]
  {
  }

  /** The keys of the dictionary are exactly the slots handed out. */
  lemma {:induction false} IndexKeys(es: seq<Resolved>)
    ensures forall k :: k in IndexOf(es) <==> k in Slots(es)
  {
    if es != [] {
      var init := es[..|es| - 1];
      IndexKeys(init);
      IndexOfLast(es);
    }
  }

  /** No two files share a key. */
  lemma {:induction false} SlotsDistinct(es: seq<Resolved>)
    ensures forall i, j :: 0 <= i < j < |es| ==> Slots(es)[i] != Slots(es)[j]
  {
    if es != [] {
      var init := es[..|es| - 1];
      SlotsDistinct(init);
      IndexKeys(init);
      IndexOfLast(es);
      var ks := Slots(es);
      assert forall i :: 0 <= i < |init| ==> ks[i] == Slots(init)[i];
    }
  }

  /** Every file sits under its own slot. */
  lemma {:induction false} IndexValues(es: seq<Resolved>)
    ensures forall i :: 0 <= i < |es| ==> Slots(es)[i] in IndexOf(es) && IndexOf(es)[Slots(es)[i]] == es[i].path
  {
    if es != [] {
      var init := es[..|es| - 1];
      IndexValues(init);
      SlotsDistinct(es);
      IndexOfLast(es);
      var ks := Slots(es);
      forall i | 0 <= i < |init|
        ensures ks[i] in IndexOf(es) && IndexOf(es)[ks[i]] == es[i].path
      {
        assert ks[i] == Slots(init)[i] && es[i] == init[i];
      }
    }
  }

  /** The entry count equals the file count. */
  lemma {:induction false} IndexSize(es: seq<Resolved>)
    ensures |IndexOf(es)| == |es|
  {
    if es != [] {
      var init := es[..|es| - 1];
      var m := IndexOf(init);
      var k := Probe(m, es[|es| - 1].time);
      IndexSize(init);
      IndexOfLast(es);
      assert m[k := es[|es| - 1].path].Keys == m.Keys + {k};
    }
  }

  /** Later insertions do not move earlier files. */
  lemma {:induction false} SlotsPrefix(es: seq<Resolved>, n: nat)
    requires n <= |es|
    ensures Slots(es[..n]) == Slots(es)[..n]
  {
    if n == |es| {
      assert es[..n] == es;
    } else {
      var init := es[..|es| - 1];
      SlotsPrefix(init, n);
      assert init[..n] == es[..n];
    }
  }

  /**
   * Each file's key is the smallest time at or after its own that no earlier
   * file holds.
   */
  lemma SmallestFree(es: seq<Resolved>, i: nat)
    requires i < |es|
    ensures Slots(es)[i] !in Slots(es)[..i]
    ensures forall t :: es[i].time <= t < Slots(es)[i] ==> t in Slots(es)[..i]
  {
    SlotsPrefix(es, i + 1);
    SlotsPrefix(es, i);
    IndexKeys(es[..i]);
    assert es[..i + 1][..i] == es[..i];
    assert Slots(es)[..i + 1] == Slots(es)[..i] + [Slots(es)[i]];
  }

  /** No entry made earlier is overwritten or moved by a later insertion. */
  lemma NothingOverwritten(es: seq<Resolved>, n: nat)
    requires n <= |es|
    ensures forall k :: k in IndexOf(es[..n]) ==> k in IndexOf(es) && IndexOf(es)[k] == IndexOf(es[..n])[k]
  {
    IndexValues(es);
    IndexKeys(es[..n]);
    IndexValues(es[..n]);
    SlotsPrefix(es, n);
    forall k | k in IndexOf(es[..n])
      ensures k in IndexOf(es) && IndexOf(es)[k] == IndexOf(es[..n])[k]
    {
      var i :| 0 <= i < n && Slots(es[..n])[i] == k;
      assert Slots(es)[i] == k;
    }
  }

  /**
   * A file inserted later whose time is not earlier than an earlier file's
   * gets a strictly larger key; in particular two files with the same time
   * keep their insertion order.
   */
  lemma LaterCollisionGoesHigher(es: seq<Resolved>, i: nat, j: nat)
    requires i < j < |es|
    requires es[i].time <= es[j].time
    ensures Slots(es)[i] < Slots(es)[j]
  {
    var ks := Slots(es);
    SmallestFree(es, i);
    SmallestFree(es, j);
    assert ks[..j][i] == ks[i];
    assert ks[..i] == ks[..j][..i];
    assert ks[j] !in ks[..i];
  }

  /** When no two files share a time, every file is stored under its own time. */
  lemma {:induction false} DistinctTimesKeepTimes(es: seq<Resolved>)
    requires forall i, j :: 0 <= i < j < |es| ==> es[i].time != es[j].time
    ensures forall i :: 0 <= i < |es| ==> Slots(es)[i] == es[i].time
  {
    if es != [] {
      var init := es[..|es| - 1];
      DistinctTimesKeepTimes(init);
      IndexKeys(init);
      var t := es[|es| - 1].time;
      assert Slots(es) == Slots(init) + [t];
    }
  }

  /** With no shared times, each file is found under its own time. */
  lemma DistinctTimeStored(es: seq<Resolved>, a: nat)
    requires forall i, j :: 0 <= i < j < |es| ==> es[i].time != es[j].time
    requires a < |es|
    ensures es[a].time in IndexOf(es) && IndexOf(es)[es[a].time] == es[a].path
  {
    DistinctTimesKeepTimes(es);
    IndexValues(es);
  }

  /** The files of all directories, in listing order. */
  function Flatten(listing: seq<seq<string>>): seq<string> {
    if listing == [] then []
    else Flatten(listing[..|listing| - 1]) + listing[|listing| - 1]
  }

  lemma {:induction false} FlattenAppend(a: seq<seq<string>>, b: seq<seq<string>>)
    ensures Flatten(a + b) == Flatten(a) + Flatten(b)
    decreases |b|
  {
    if b == [] {
      assert a + b == a;
    } else {
      assert (a + b)[..|a + b| - 1] == a + b[..|b| - 1];
      assert b[..|b| - 1] + [b[|b| - 1]] == b;
      FlattenAppend(a, b[..|b| - 1]);
    }
  }

  /** `get_time_taken` with what the file system and the EXIF reader report fixed. */
  function TimeOf(facts: string -> FileFacts): string -> Result<int, TimeError> {
    f => GetTimeTaken(f, facts(f))
  }

  /**
   * Resolving the time of each file in turn; the first error raised ends the
   * whole run.
   */
  function ResolveAll(files: seq<string>, resolve: string -> Result<int, TimeError>): Result<seq<Resolved>, TimeError> {
    if files == [] then Success([])
    else
      match ResolveAll(files[..|files| - 1], resolve)
      case Failure(e) => Failure(e)
      case Success(es) =>
        var f := files[|files| - 1];
        match resolve(f)
        case Failure(e) => Failure(e)
        case Success(t) => Success(es + [Resolved(f, t)])
  }

  /**
   * Resolving succeeds exactly when every file resolves, and then pairs each
   * file with its time; otherwise it reports the error of the first file
   * that fails.
   */
  lemma {:induction false} ResolveAllSpec(files: seq<string>, resolve: string -> Result<int, TimeError>)
    ensures ResolveAll(files, resolve).Success? <==> forall i :: 0 <= i < |files| ==> resolve(files[i]).Success?
    ensures ResolveAll(files, resolve).Success? ==>
              var es := ResolveAll(files, resolve).value;
              && |es| == |files|
              && forall i :: 0 <= i < |files| ==> es[i] == Resolved(files[i], resolve(files[i]).value)
    ensures ResolveAll(files, resolve).Failure? ==>
              exists i :: && 0 <= i < |files|
                          && resolve(files[i]) == Failure(ResolveAll(files, resolve).error)
                          && forall h :: 0 <= h < i ==> resolve(files[h]).Success?
  {
    if files != [] {
      var init := files[..|files| - 1];
      ResolveAllSpec(init, resolve);
      var n := |files| - 1;
      if ResolveAll(init, resolve).Failure? {
        var i :| && 0 <= i < |init|
                 && resolve(init[i]) == Failure(ResolveAll(init, resolve).error)
                 && forall h :: 0 <= h < i ==> resolve(init[h]).Success?;
        assert files[i] == init[i];
        assert forall h :: 0 <= h < i ==> files[h] == init[h];
      } else if resolve(files[n]).Failure? {
        assert forall h :: 0 <= h < n ==> files[h] == init[h];
      }
    }
  }

  /** Once a file fails, nothing listed after it is resolved. */
  lemma {:induction false} FailureStops(files: seq<string>, rest: seq<string>, resolve: string -> Result<int, TimeError>)
    requires ResolveAll(files, resolve).Failure?
    ensures ResolveAll(files + rest, resolve) == ResolveAll(files, resolve)
    decreases |rest|
  {
    if rest == [] {
      assert files + rest == files;
    } else {
      var all := files + rest;
      assert all[..|all| - 1] == files + rest[..|rest| - 1];
      FailureStops(files, rest[..|rest| - 1], resolve);
    }
  }

  /** The dictionary built from the resolved files, or the error that ended the run. */
  function IndexResult(resolved: Result<seq<Resolved>, TimeError>): Result<map<int, string>, TimeError> {
    match resolved
    case Failure(e) => Failure(e)
    case Success(es) => Success(IndexOf(es))
  }

  /** What `get_input_files` returns for the given directory listings, or the error it raises. */
  function InputFiles(listing: seq<seq<string>>, facts: string -> FileFacts): Result<map<int, string>, TimeError> {
    IndexResult(ResolveAll(Flatten(listing), TimeOf(facts)))
  }

  /**
   * `get_input_files` returns a dictionary exactly when every listed file
   * resolves, and then the dictionary has one entry per listed file.
   */
  lemma InputFilesSize(listing: seq<seq<string>>, facts: string -> FileFacts)
    ensures InputFiles(listing, facts).Success? <==>
              forall f :: f in Flatten(listing) ==> GetTimeTaken(f, facts(f)).Success?
    ensures InputFiles(listing, facts).Success? ==> |InputFiles(listing, facts).value| == |Flatten(listing)|
  {
    var files := Flatten(listing);
    var resolve := TimeOf(facts);
    ResolveAllSpec(files, resolve);
    if ResolveAll(files, resolve).Success? {
      IndexSize(ResolveAll(files, resolve).value);
      forall f | f in files
        ensures GetTimeTaken(f, facts(f)).Success?
      {
        var i :| 0 <= i < |files| && files[i] == f;
        assert resolve(files[i]).Success?;
      }
    } else {
      var k :| 0 <= k < |files| && resolve(files[k]) == Failure(ResolveAll(files, resolve).error);
      assert files[k] in files && GetTimeTaken(files[k], facts(files[k])).Failure?;
    }
  }

  /**
   * The first listed path that cannot be opened (a directory the glob
   * matched, say) ends the run with the `IOError` of `open`.
   */
  lemma UnopenableEndsRun(listing: seq<seq<string>>, facts: string -> FileFacts, i: nat)
    requires i < |Flatten(listing)| && facts(Flatten(listing)[i]) == Unopenable
    requires forall h :: 0 <= h < i ==> GetTimeTaken(Flatten(listing)[h], facts(Flatten(listing)[h])).Success?
    ensures InputFiles(listing, facts) == Failure(CannotOpen)
  {
    var files := Flatten(listing);
    var resolve := TimeOf(facts);
    ResolveAllSpec(files, resolve);
    assert resolve(files[i]) == Failure(CannotOpen);
    assert forall h :: 0 <= h < i ==> resolve(files[h]).Success?;
    var k :| && 0 <= k < |files|
             && resolve(files[k]) == Failure(ResolveAll(files, resolve).error)
             && forall h :: 0 <= h < k ==> resolve(files[h]).Success?;
    assert k == i;
  }

  /** A camera's `100CANON.OLD` folder matches the glob `*.*`; opening it fails the whole run. */
  lemma UnopenableListingExample(facts: string -> FileFacts)
    requires facts("Canon/100CANON.OLD") == Unopenable
    ensures InputFiles([["Canon/100CANON.OLD"]], facts) == Failure(CannotOpen)
  {
    var listing := [["Canon/100CANON.OLD"]];
    assert listing[..0] == [];
    assert Flatten(listing) == ["Canon/100CANON.OLD"];
    UnopenableEndsRun(listing, facts, 0);
  }

  lemma FlattenStep(listing: seq<seq<string>>, d: nat)
    requires d < |listing|
    ensures Flatten(listing[..d + 1]) == Flatten(listing[..d]) + listing[d]
  {
    assert listing[..d + 1][..d] == listing[..d];
  }

  /** One more file: its time joins the resolved list, or its error ends the run. */
  lemma ResolveStep(done: seq<string>, file: string, resolve: string -> Result<int, TimeError>, es: seq<Resolved>)
    requires ResolveAll(done, resolve) == Success(es)
    ensures resolve(file).Failure? ==> ResolveAll(done + [file], resolve) == Failure(resolve(file).error)
    ensures resolve(file).Success? ==>
              ResolveAll(done + [file], resolve) == Success(es + [Resolved(file, resolve(file).value)])
  {
    assert (done + [file])[..|done|] == done;
  }

  lemma IndexStep(es: seq<Resolved>, r: Resolved)
    ensures IndexOf(es + [r]) == IndexOf(es)[Probe(IndexOf(es), r.time) := r.path]
  {
    assert (es + [r])[..|es|] == es;
  }

  /** The next file of directory `d` resolves: the resolved list grows by it. */
  lemma FileResolves(listing: seq<seq<string>>, d: nat, i: nat, resolve: string -> Result<int, TimeError>, es: seq<Resolved>)
    requires d < |listing| && i < |listing[d]|
    requires ResolveAll(Flatten(listing[..d]) + listing[d][..i], resolve) == Success(es)
    requires resolve(listing[d][i]).Success?
    ensures ResolveAll(Flatten(listing[..d]) + listing[d][..i + 1], resolve)
            == Success(es + [Resolved(listing[d][i], resolve(listing[d][i]).value)])
  {
    var done := Flatten(listing[..d]);
    AppendPrefix(done, listing[d], i);
    ResolveStep(done + listing[d][..i], listing[d][i], resolve, es);
  }

  /** The next file of directory `d` fails: the whole listing fails with its error. */
  lemma FileFails(listing: seq<seq<string>>, d: nat, i: nat, resolve: string -> Result<int, TimeError>, es: seq<Resolved>)
    requires d < |listing| && i < |listing[d]|
    requires ResolveAll(Flatten(listing[..d]) + listing[d][..i], resolve) == Success(es)
    requires resolve(listing[d][i]).Failure?
    ensures ResolveAll(Flatten(listing), resolve) == Failure(resolve(listing[d][i]).error)
  {
    var done := Flatten(listing[..d]);
    var files := listing[d];
    AppendPrefix(done, files, i);
    ResolveStep(done + files[..i], files[i], resolve, es);
    FailureStops(done + files[..i + 1], files[i + 1..], resolve);
    assert files[..i + 1] + files[i + 1..] == files;
    AppendPrefix(done, files, i + 1);
    FlattenStep(listing, d);
    FlattenAppend(listing[..d + 1], listing[d + 1..]);
    assert listing[..d + 1] + listing[d + 1..] == listing;
    FailureStops(done + files, Flatten(listing[d + 1..]), resolve);
  }

  /** Directory `d` resolved completely: the listing's prefix through `d` has resolved. */
  lemma DirectoryResolves(listing: seq<seq<string>>, d: nat, resolve: string -> Result<int, TimeError>, es: seq<Resolved>)
    requires d < |listing|
    requires ResolveAll(Flatten(listing[..d]) + listing[d][..|listing[d]|], resolve) == Success(es)
    ensures ResolveAll(Flatten(listing[..d + 1]), resolve) == Success(es)
  {
    AppendPrefix(Flatten(listing[..d]), listing[d], |listing[d]|);
    FlattenStep(listing, d);
  }

  /** The inner `while` of `get_input_files`: bump `time` while it is a key of `index`. */
  method FreeKey(index: map<int, string>, time: int) returns (t: int)
    ensures t == Probe(index, time)
  {
    t := time;
    while t in index
      invariant time <= t
      invariant forall j :: time <= j < t ==> j in index
      decreases KeysFrom(index, t)
    {
      assert t in KeysFrom(index, t) && t !in KeysFrom(index, t + 1);
      t := t + 1;
    }
    ProbeUnique(index, time, t);
  }

  /**
   * `get_input_files`: `listing` holds what the glob of each directory
   * returns and `facts` what the file system and the EXIF reader report for
   * each path. Each file's time is resolved and bumped past the keys already
   * in use before it is stored; the first error raised ends the run.
   */
  method GetInputFiles(listing: seq<seq<string>>, facts: string -> FileFacts)
    returns (r: Result<map<int, string>, TimeError>)
    ensures r == InputFiles(listing, facts)
  {
    ghost var resolve := TimeOf(facts);
    var index: map<int, string> := map[];
    ghost var es: seq<Resolved> := [];
    for d := 0 to |listing|
      invariant ResolveAll(Flatten(listing[..d]), resolve) == Success(es)
      invariant index == IndexOf(es)
    {
      var files := listing[d];
      AppendPrefix(Flatten(listing[..d]), files, 0);
      for i := 0 to |files|
        invariant ResolveAll(Flatten(listing[..d]) + files[..i], resolve) == Success(es)
        invariant index == IndexOf(es)
      {
        var file := files[i];
        var timeTaken := GetTimeTaken(file, facts(file));
        assert timeTaken == resolve(file);
        if timeTaken.Failure? {
          FileFails(listing, d, i, resolve, es);
          return Failure(timeTaken.error);
        }
        FileResolves(listing, d, i, resolve, es);
        var key := FreeKey(index, timeTaken.value);
        IndexStep(es, Resolved(file, timeTaken.value));
        index := index[key := file];
        es := es + [Resolved(file, timeTaken.value)];
      }
      DirectoryResolves(listing, d, resolve, es);
    }
    assert listing[..|listing|] == listing;
    return Success(index);
  }
}
