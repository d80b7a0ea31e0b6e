/**
 * The naming engine: the output folder's name and path, the zero-padding
 * mask for the running index, and each output file's name.
 */
module Naming {
  import opened Wrappers
  import opened Strings
  import opened Sequences

  /** Python truthiness of an optional string: present and not empty. */
  predicate Given(s: Option<string>) {
    s.Some? && s.value != ""
  }

  /** Python truthiness of an optional serial: present and not zero. */
  predicate SerialGiven(n: Option<int>) {
    n.Some? && n.value != 0
  }

  /** `' - ' + photographer` when a photographer is given, nothing otherwise. */
  function PhotographerSuffix(photographer: Option<string>): string {
    if Given(photographer) then " - " + photographer.value else ""
  }

  /** `folder_name`: year and event, then the serial, then the photographer. */
  function FolderName(year: string, event: string, photographer: Option<string>, serial: Option<int>): string {
    year + " - " + event
      + (if SerialGiven(serial) then " - " + IntToString(serial.value) else "")
      + PhotographerSuffix(photographer)
  }

  lemma FolderNameExamples()
    ensures FolderName("2014", "Boom", Some("Marcus"), None) == "2014 - Boom - Marcus"
    ensures FolderName("2014", "Boom", Some("Marcus"), Some(2)) == "2014 - Boom - 2 - Marcus"
    ensures FolderName("2014", "Boom", None, None) == "2014 - Boom"
    ensures FolderName("2014", "Boom", Some(""), Some(0)) == "2014 - Boom"
  {
  }

  /**
   * The path `folder_path` tries with a given serial: serial 1 stands for the
   * first probe, which passes no serial; later probes pass 2, 3, ...
   */
  function FolderCandidate(root: string, year: string, event: string, photographer: Option<string>, serial: nat): string {
    root + "/" + FolderName(year, event, photographer, if serial <= 1 then None else Some(serial))
  }

  /** Distinct serials give distinct candidate paths. */
  lemma CandidateInjective(root: string, year: string, event: string, photographer: Option<string>, a: nat, b: nat)
    requires 1 <= a && 1 <= b
    requires FolderCandidate(root, year, event, photographer, a) == FolderCandidate(root, year, event, photographer, b)
    ensures a == b
  {
    var ma := if a <= 1 then "" else " - " + IntToString(a);
    var mb := if b <= 1 then "" else " - " + IntToString(b);
    SameMiddle(root + "/", year + " - " + event, ma, mb, PhotographerSuffix(photographer));
    if 1 < a && 1 < b {
      assert ma[3..] == IntToString(a);
      assert mb[3..] == IntToString(b);
      IntToStringInjective(a, b);
    }
  }

  /**
   * What `folder_path` promises: `path` is a candidate that is not an existing
   * directory, and every candidate with a smaller serial is one.
   */
  ghost predicate IsFirstFree(root: string, year: string, event: string, photographer: Option<string>, dirs: set<string>, path: string) {
    && path !in dirs
    && exists serial: nat ::
         && 1 <= serial
         && path == FolderCandidate(root, year, event, photographer, serial)
         && forall k: nat :: 1 <= k < serial ==> FolderCandidate(root, year, event, photographer, k) in dirs
  }

  /** The first free candidate is determined by the directories alone. */
  lemma FirstFreeUnique(root: string, year: string, event: string, photographer: Option<string>, dirs: set<string>, p1: string, p2: string)
    requires IsFirstFree(root, year, event, photographer, dirs, p1)
    requires IsFirstFree(root, year, event, photographer, dirs, p2)
    ensures p1 == p2
  {
    var s1: nat :| 1 <= s1 && p1 == FolderCandidate(root, year, event, photographer, s1)
      && forall k: nat :: 1 <= k < s1 ==> FolderCandidate(root, year, event, photographer, k) in dirs;
    var s2: nat :| 1 <= s2 && p2 == FolderCandidate(root, year, event, photographer, s2)
      && forall k: nat :: 1 <= k < s2 ==> FolderCandidate(root, year, event, photographer, k) in dirs;
  }

  /**
   * `folder_path`: probe `root/<name>`, then `root/<name with serial 2>`, 3, ...
   * against the set of existing directories until one is free. The root is
   * taken as already absolute.
   */
  method FolderPath(root: string, year: string, event: string, photographer: Option<string>, dirs: set<string>)
    returns (path: string)
    ensures path !in dirs
    ensures IsFirstFree(root, year, event, photographer, dirs, path)
    ensures FolderCandidate(root, year, event, photographer, 1) !in dirs ==>
              path == root + "/" + FolderName(year, event, photographer, None)
  {
    path := root + "/" + FolderName(year, event, photographer, None);
    var serial: nat := 1;
    ghost var seen: set<string> := {};
    while path in dirs
      invariant 1 <= serial
      invariant path == FolderCandidate(root, year, event, photographer, serial)
      invariant forall k: nat :: 1 <= k < serial ==> FolderCandidate(root, year, event, photographer, k) in dirs
      invariant seen <= dirs
      invariant forall q :: q in seen ==>
                  exists k: nat :: 1 <= k < serial && q == FolderCandidate(root, year, event, photographer, k)
      decreases dirs - seen
    {
      assert path !in seen by {
        if path in seen {
          var k: nat :| 1 <= k < serial && path == FolderCandidate(root, year, event, photographer, k);
          CandidateInjective(root, year, event, photographer, k, serial);
        }
      }
      seen := seen + {path};
      serial := serial + 1;
      path := root + "/" + FolderName(year, event, photographer, Some(serial));
    }
  }

  /** The probe sequence of the folder-path test: free, then taken once. */
  lemma FolderPathExamples(root: string)
    ensures IsFirstFree(root, "2014", "Boom", Some("Marcus"), {}, root + "/2014 - Boom - Marcus")
    ensures IsFirstFree(root, "2014", "Boom", Some("Marcus"), {root + "/2014 - Boom - Marcus"},
                        root + "/2014 - Boom - 2 - Marcus")
  {
    FolderNameExamples();
    var c1 := FolderCandidate(root, "2014", "Boom", Some("Marcus"), 1);
    var c2 := FolderCandidate(root, "2014", "Boom", Some("Marcus"), 2);
    assert c1 == root + "/2014 - Boom - Marcus";
    assert c2 == root + "/2014 - Boom - 2 - Marcus";
    assert |c1| != |c2|;
  }

  /** The zero-padding pattern `get_index_mask` chooses for the running index. */
  datatype IndexMask = Plain | ZeroPadded(width: nat)

  /** `get_index_mask`: no padding below ten files, else the file count's digit count. */
  function GetIndexMask(fileCount: nat): IndexMask {
    if fileCount < 10 then Plain else ZeroPadded(|NatToString(fileCount)|)
  }

  /** The format string the source returns: `'%d'` or `'%0<width>d'`. */
  function MaskText(m: IndexMask): string {
    match m
    case Plain => "%d"
    case ZeroPadded(w) => "%0" + NatToString(w) + "d"
  }

  lemma IndexMaskExamples()
    ensures MaskText(GetIndexMask(1)) == "%d"
    ensures MaskText(GetIndexMask(9)) == "%d"
    ensures MaskText(GetIndexMask(10)) == "%02d"
    ensures MaskText(GetIndexMask(100)) == "%03d"
    ensures MaskText(GetIndexMask(1000)) == "%04d"
    ensures MaskText(GetIndexMask(10000)) == "%05d"
  {
    assert NatToString(10) == "10";
    assert NatToString(100) == "100";
    assert NatToString(1000) == "1000";
    assert NatToString(10000) == "10000";
  }

  /** Python's `mask % n`: the decimal digits of `n`, denoting `n`. */
  function FormatIndex(m: IndexMask, n: nat): (s: string)
    ensures AllDigits(s) && DigitsValue(s) == n
  {
    match m
    case Plain => NatToString(n)
    case ZeroPadded(w) => ZeroPad(NatToString(n), w)
  }

  lemma SingleDigit(n: nat)
    requires n < 10
    ensures |NatToString(n)| == 1
  {
  }

  /** Every position 1..n formats to the width of n's own decimal digits. */
  lemma IndexWidthUniform(n: nat, i: nat)
    requires 1 <= i <= n
    ensures |FormatIndex(GetIndexMask(n), i)| == |NatToString(n)|
  {
    if n < 10 {
      SingleDigit(n);
      SingleDigit(i);
    } else {
      DigitCountMonotone(i, n);
    }
  }

  /**
   * `get_output_file_name`: the 1-based index under the mask, `' - '`, the
   * event, a space, the year, the photographer suffix, and the input file's
   * extension in lower case.
   */
  function OutputFileName(year: string, event: string, photographer: Option<string>, mask: IndexMask,
                          index: nat, inputFile: string): string
  {
    FormatIndex(mask, index + 1) + NameTail(year, event, photographer, inputFile)
  }

  /** Everything after the index: `' - <event> <year>'`, the photographer, the extension. */
  function NameTail(year: string, event: string, photographer: Option<string>, inputFile: string): string {
    " - " + event + " " + year + PhotographerSuffix(photographer) + Lower(SplitExt(inputFile).1)
  }

  /** The test file's last path component, `IMG4101`, has a stem. */
  lemma ExampleStem()
    ensures HasStem("/tmp/photo_sort/IMG4101")
  {
    RFindAppend("/tmp/photo_sort/", "IMG4101", '/');
    assert "/tmp/photo_sort/" + "IMG4101" == "/tmp/photo_sort/IMG4101";
    assert "/tmp/photo_sort/IMG4101"[16] != '.';
  }

  /** The test file splits into its base and `.jpg`. */
  lemma ExampleSplit()
    ensures SplitExt("/tmp/photo_sort/IMG4101.jpg") == ("/tmp/photo_sort/IMG4101", ".jpg")
  {
    ExampleStem();
    SplitExtOfAppended("/tmp/photo_sort/IMG4101", ".jpg");
    assert "/tmp/photo_sort/IMG4101" + ".jpg" == "/tmp/photo_sort/IMG4101.jpg";
  }

  /** The test file's extension, `.jpg`, is already lower case. */
  lemma ExampleExtension()
    ensures Lower(SplitExt("/tmp/photo_sort/IMG4101.jpg").1) == ".jpg"
  {
    ExampleSplit();
    assert forall i :: 0 <= i < 4 ==> LowerChar(".jpg"[i]) == ".jpg"[i];
  }

  /** An output name, once the input's lower-cased extension is known. */
  lemma OutputFileNameWith(year: string, event: string, photographer: Option<string>, mask: IndexMask,
                           index: nat, inputFile: string, ext: string)
    requires Lower(SplitExt(inputFile).1) == ext
    ensures OutputFileName(year, event, photographer, mask, index, inputFile)
            == FormatIndex(mask, index + 1) + " - " + event + " " + year + PhotographerSuffix(photographer) + ext
  {
    var rest := " - " + event + " " + year + PhotographerSuffix(photographer);
    assert NameTail(year, event, photographer, inputFile) == rest + ext;
    calc {
      OutputFileName(year, event, photographer, mask, index, inputFile);
      FormatIndex(mask, index + 1) + (rest + ext);
      { SeqAssoc(FormatIndex(mask, index + 1), rest, ext); }
      (FormatIndex(mask, index + 1) + rest) + ext;
    }
    SeqAssoc(FormatIndex(mask, index + 1), " - " + event + " " + year, PhotographerSuffix(photographer));
  }

  /**
   * The test's names for a `.jpg` input such as `/tmp/photo_sort/IMG4101.jpg`
   * (see `ExampleExtension`): index 0 is written 1, then the event, the
   * year, the photographer if any, and the extension.
   */
  lemma OutputFileNameExample(inputFile: string)
    requires Lower(SplitExt(inputFile).1) == ".jpg"
    ensures OutputFileName("2014", "Boom", None, Plain, 0, inputFile) == "1 - Boom 2014.jpg"
  {
    OutputFileNameWith("2014", "Boom", None, Plain, 0, inputFile, ".jpg");
    assert FormatIndex(Plain, 1) == "1";
  }

  lemma OutputFileNamePhotographerExample(inputFile: string)
    requires Lower(SplitExt(inputFile).1) == ".jpg"
    ensures OutputFileName("2014", "Boom", Some("Marcus"), Plain, 0, inputFile) == "1 - Boom 2014 - Marcus.jpg"
  {
    OutputFileNameWith("2014", "Boom", Some("Marcus"), Plain, 0, inputFile, ".jpg");
    assert FormatIndex(Plain, 1) == "1";
    assert PhotographerSuffix(Some("Marcus")) == " - Marcus";
    PhotographerNameText();
  }

  lemma PhotographerNameText()
    ensures "1" + " - " + "Boom" + " " + "2014" + " - Marcus" + ".jpg" == "1 - Boom 2014 - Marcus.jpg"
  {
  }

  /**
   * An output name opens with the zero-padded 1-based position, which reads
   * back as `index + 1`, and closes with the lower-cased extension.
   */
  lemma OutputFileNameParts(year: string, event: string, photographer: Option<string>, mask: IndexMask,
                            index: nat, inputFile: string)
    ensures var name := OutputFileName(year, event, photographer, mask, index, inputFile);
            var head := FormatIndex(mask, index + 1);
            var ext := Lower(SplitExt(inputFile).1);
            && |head| + |ext| <= |name|
            && name[..|head|] == head && DigitsValue(name[..|head|]) == index + 1
            && name[|name| - |ext|..] == ext
  {
    var head := FormatIndex(mask, index + 1);
    var rest := " - " + event + " " + year + PhotographerSuffix(photographer);
    var ext := Lower(SplitExt(inputFile).1);
    PrefixOfAppend(head, rest + ext);
    SuffixOfAppend(head, rest, ext);
  }

  /** Two positions of one run never receive the same output name. */
  lemma OutputNamesDistinct(year: string, event: string, photographer: Option<string>, n: nat,
                            i: nat, j: nat, fi: string, fj: string)
    requires i < j < n
    ensures OutputFileName(year, event, photographer, GetIndexMask(n), i, fi)
            != OutputFileName(year, event, photographer, GetIndexMask(n), j, fj)
  {
    var m := GetIndexMask(n);
    var hi := FormatIndex(m, i + 1);
    var hj := FormatIndex(m, j + 1);
    IndexWidthUniform(n, i + 1);
    IndexWidthUniform(n, j + 1);
    PrefixOfAppend(hi, NameTail(year, event, photographer, fi));
    PrefixOfAppend(hj, NameTail(year, event, photographer, fj));
    assert hi != hj;
  }
}
