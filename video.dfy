/**
 * The decisions the video helpers make before any external tool runs: the
 * HandBrake rotation code for a rotation tag, the sidecar file that holds an
 * MPEG video's EXIF data, which extensions count as video, and the name of
 * the transcoded file.
 */
module Video {
  import opened Wrappers
  import opened Strings

  /**
   * `get_video_rotation`: the HandBrake `--rotate` code for the `Rotation`
   * tag exiftool reports (`None` when the tag is missing): 90 degrees is
   * code 4, 180 is code 3, 270 is code 7, anything else has no code.
   */
  function RotationCode(rotation: Option<int>): (code: Option<int>)
    ensures code.None? || code.value in {3, 4, 7}
  {
    match rotation
    case Some(90) => Some(4)
    case Some(180) => Some(3)
    case Some(270) => Some(7)
    case _ => None
  }

  /** The rotation in degrees a HandBrake code stands for. */
  function CodeDegrees(code: int): Option<int> {
    if code == 4 then Some(90)
    else if code == 3 then Some(180)
    else if code == 7 then Some(270)
    else None
  }

  /**
   * A rotation has a code exactly when it is a quarter, half or
   * three-quarter turn, and the code reads back as that rotation.
   */
  lemma RotationRoundTrip(rotation: Option<int>)
    ensures RotationCode(rotation).Some? <==> rotation in {Some(90), Some(180), Some(270)}
    ensures RotationCode(rotation).Some? ==> CodeDegrees(RotationCode(rotation).value) == rotation
  {
  }

  /** Every code comes from exactly one rotation. */
  lemma RotationCodeInjective(a: Option<int>, b: Option<int>)
    requires RotationCode(a).Some? && RotationCode(a) == RotationCode(b)
    ensures a == b
  {
    RotationRoundTrip(a);
    RotationRoundTrip(b);
  }

  /** The extension of an MPEG video, compared in lower case. */
  predicate IsMpeg(file: string) {
    Lower(SplitExt(file).1) in [".mpg", ".mpeg"]
  }

  /**
   * `get_metadata_file`: for an MPEG video, the first of `base + '.thm'` and
   * `base + '.THM'` that is an existing file; otherwise the video itself.
   * `regularFiles` is the set of paths `os.path.isfile` accepts.
   */
  function GetMetadataFile(file: string, regularFiles: set<string>): string {
    var base := SplitExt(file).0;
    if IsMpeg(file) && base + ".thm" in regularFiles then base + ".thm"
    else if IsMpeg(file) && base + ".THM" in regularFiles then base + ".THM"
    else file
  }

  /** A file that is not an MPEG video is its own metadata file. */
  lemma MetadataOfOtherFiles(file: string, regularFiles: set<string>)
    requires !IsMpeg(file)
    ensures GetMetadataFile(file, regularFiles) == file
  {
  }

  /**
   * For an MPEG video the lower-case sidecar wins, the upper-case one is
   * used only when the lower-case one is missing, and with neither the
   * video itself is returned.
   */
  lemma MetadataOfMpeg(file: string, regularFiles: set<string>)
    requires IsMpeg(file)
    ensures var base := SplitExt(file).0;
            var r := GetMetadataFile(file, regularFiles);
            && (base + ".thm" in regularFiles ==> r == base + ".thm")
            && (base + ".thm" !in regularFiles && base + ".THM" in regularFiles ==> r == base + ".THM")
            && (base + ".thm" !in regularFiles && base + ".THM" !in regularFiles ==> r == file)
  {
  }

  /**
   * The metadata file is the video itself, or an existing sidecar that
   * shares the video's base and splits back into that base and a
   * `.thm`/`.THM` extension.
   */
  lemma MetadataFileShape(file: string, regularFiles: set<string>)
    ensures var base := SplitExt(file).0;
            var r := GetMetadataFile(file, regularFiles);
            || r == file
            || (&& IsMpeg(file)
                && r in regularFiles
                && SplitExt(r).0 == base
                && SplitExt(r).1 in [".thm", ".THM"])
  {
    var base := SplitExt(file).0;
    if IsMpeg(file) {
      assert SplitExt(file).1 != [];
      SplitExtShape(file);
      SplitExtOfAppended(base, ".thm");
      SplitExtOfAppended(base, ".THM");
    }
  }

  /** An upper-case `.MPG` video takes its data from an existing `.THM` sidecar. */
  lemma MetadataExample()
    ensures GetMetadataFile("MVI_1.MPG", {"MVI_1.THM"}) == "MVI_1.THM"
  {
    assert "MVI_1.MPG" == "MVI_1" + ".MPG";
    assert HasStem("MVI_1") by {
      assert RFind("MVI_1", '/') == -1;
      assert "MVI_1"[0] != '.';
    }
    SplitExtOfAppended("MVI_1", ".MPG");
    assert Lower(".MPG") == ".mpg";
    assert ("MVI_1" + ".thm")[6] != "MVI_1.THM"[6];
    assert "MVI_1" + ".THM" == "MVI_1.THM";
  }

  /** `video_extensions` of the video module: the extensions `encode_videos` transcodes. */
  const VideoExtensions: seq<string> := [".avi", ".dv", ".mpg", ".mpeg", ".ogm", ".m4v", ".mp4", ".mkv", ".mov", ".qt", ".wmv"]

  /** The older list kept in the main module, which lacks `.wmv`. */
  const MainVideoExtensions: seq<string> := [".avi", ".dv", ".mpg", ".mpeg", ".ogm", ".m4v", ".mp4", ".mkv", ".mov", ".qt"]

  /** The case-sensitive membership test `extension in video_extensions`. */
  predicate IsVideoExtension(extension: string) {
    extension in VideoExtensions
  }

  /** The two lists agree except on `.wmv`. */
  lemma ExtensionListsDiffer()
    ensures forall e :: e in MainVideoExtensions ==> e in VideoExtensions
    ensures forall e :: e in VideoExtensions && e !in MainVideoExtensions <==> e == ".wmv"
  {
  }

  /**
   * Every listed extension is in lower case, so an extension holding a
   * capital letter is never taken as video.
   */
  lemma VideoExtensionsLowerCase(extension: string)
    requires IsVideoExtension(extension)
    ensures Lower(extension) == extension
  {
    assert forall e :: e in VideoExtensions ==> forall i :: 0 <= i < |e| ==> !('A' <= e[i] <= 'Z');
    assert forall i :: 0 <= i < |extension| ==> Lower(extension)[i] == extension[i];
  }

  lemma VideoExtensionExamples()
    ensures IsVideoExtension(".mov") && !IsVideoExtension(".MOV")
    ensures IsVideoExtension(".wmv") && !IsVideoExtension(".jpg")
  {
    assert ".MOV" != ".mov";
  }

  /**
   * The transcode decision of `encode_videos` for one file: a video is
   * re-encoded into `base + '.mp4'`; any other file is left alone.
   */
  function TranscodeTarget(inputFile: string): Option<string> {
    var (base, extension) := SplitExt(inputFile);
    if IsVideoExtension(extension) then Some(base + ".mp4") else None
  }

  /**
   * A target exists exactly for the listed extensions; it keeps the input's
   * base, splits back into that base and `.mp4`, and is the input path
   * itself exactly when the input already is an `.mp4` file.
   */
  lemma TranscodeTargetShape(inputFile: string)
    ensures TranscodeTarget(inputFile).Some? <==> IsVideoExtension(SplitExt(inputFile).1)
    ensures var t := TranscodeTarget(inputFile);
            t.Some? ==>
              && SplitExt(t.value) == (SplitExt(inputFile).0, ".mp4")
              && (t.value == inputFile <==> SplitExt(inputFile).1 == ".mp4")
  {
    var (base, extension) := SplitExt(inputFile);
    if IsVideoExtension(extension) {
      assert extension != [];
      SplitExtShape(inputFile);
      SplitExtOfAppended(base, ".mp4");
      assert inputFile == base + extension;
      if base + ".mp4" == inputFile {
        assert (base + ".mp4")[|base|..] == ".mp4";
        assert inputFile[|base|..] == extension;
      }
    }
  }
}
