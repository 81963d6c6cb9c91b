/**
  File names of a video job: the stored upload `video_<ts><ext>`, the output and
  job key `detected_<ts>.mp4`, and the way `delete_video` recovers `<ts>` from
  the job key to find the upload again.
*/
module Naming {
  import opened Domain
  import Text

  /** The extensions `upload_video` accepts (line 398). */
  const AllowedExtensions: set<string> := {".mp4", ".avi", ".mov", ".mkv", ".webm"}

  /** The extensions `delete_video` tries, in order (line 1024). */
  const CandidateExtensions: seq<string> := [".mp4", ".avi", ".mov", ".mkv", ".webm"]

  /** Characters `strftime('%Y%m%d_%H%M%S')` produces. */
  predicate IsStampText(ts: string) {
    forall i :: 0 <= i < |ts| ==> Text.IsDigit(ts[i]) || ts[i] == '_'
  }

  /** `f"video_{timestamp}{file_ext}"`. */
  function UploadName(ts: string, ext: string): string {
    "video_" + ts + ext
  }

  /** `f"detected_{timestamp}.mp4"`: the output file and the job key. */
  function OutputName(ts: string): string {
    "detected_" + ts + ".mp4"
  }

  /** `filename.replace('detected_', '').replace('.mp4', '')`. */
  function TimestampOf(name: string): string {
    Text.ReplaceAll(Text.ReplaceAll(name, "detected_", ""), ".mp4", "")
  }

  /** The upload paths `delete_video` probes, in order. */
  function OriginalCandidates(ts: string): (r: seq<string>)
    ensures |r| == |CandidateExtensions|
    ensures forall i :: 0 <= i < |r| ==> r[i] == Join(UploadFolder, UploadName(ts, CandidateExtensions[i]))
  {
    seq(|CandidateExtensions|, i requires 0 <= i < |CandidateExtensions| =>
      Join(UploadFolder, UploadName(ts, CandidateExtensions[i])))
  }

  /** `str.lower()` on ASCII letters; other characters are kept. */
  function LowerAscii(s: string): (r: string)
    ensures |r| == |s|
    ensures forall i :: 0 <= i < |s| ==> r[i] == (if 'A' <= s[i] <= 'Z' then (s[i] as int + 32) as char else s[i])
  {
    seq(|s|, i requires 0 <= i < |s| => if 'A' <= s[i] <= 'Z' then (s[i] as int + 32) as char else s[i])
  }

  /** A string without upper-case letters is its own lower-case form. */
  lemma LowerKeeps(s: string)
    requires forall i :: 0 <= i < |s| ==> !('A' <= s[i] <= 'Z')
    ensures LowerAscii(s) == s
  {
  }

  /** The last position of c in s, or -1. */
  function RFind(s: string, c: char): (r: int)
    ensures -1 <= r < |s|
    ensures r >= 0 ==> s[r] == c
    ensures forall j :: r < j < |s| ==> s[j] != c
    decreases |s|
  {
    if |s| == 0 then -1 else if s[|s| - 1] == c then |s| - 1 else RFind(s[..|s| - 1], c)
  }

  /**
    `os.path.splitext(p)[1]` on POSIX: from the last dot of the last path
    component, unless every character before that dot in the component is a dot.
  */
  function Extension(p: string): (r: string)
    ensures r == "" || (r[0] == '.' && '/' !in r && '.' !in r[1..])
  {
    var sep := RFind(p, '/');
    var dot := RFind(p, '.');
    if dot > sep && exists i :: sep + 1 <= i < dot && p[i] != '.' then
      assert forall j :: 0 <= j < |p[dot..]| ==> p[dot..][j] == p[dot + j];
      p[dot..]
    else ""
  }

  /** The extension is a suffix of the name. */
  lemma ExtensionIsSuffix(p: string)
    ensures |Extension(p)| <= |p| && p[|p| - |Extension(p)|..] == Extension(p)
  {
  }

  /** Each accepted extension is a dot and lower-case letters and digits. */
  lemma AllowedShape(ext: string)
    requires ext in AllowedExtensions
    ensures |ext| > 1 && ext[0] == '.'
    ensures forall i :: 0 <= i < |ext| ==> ext[i] != '/' && !('A' <= ext[i] <= 'Z')
    ensures forall i :: 1 <= i < |ext| ==> ext[i] != '.'
  {
  }

  /**
    A slash-free stem that is not all dots, followed by an extension, splits at
    that extension: `my.clip` + `.mp4` gives `.mp4`.
  */
  lemma {:induction false} ExtensionOfStem(stem: string, ext: string)
    requires (exists i :: 0 <= i < |stem| && stem[i] != '.') && '/' !in stem
    requires |ext| > 0 && ext[0] == '.' && '/' !in ext
    requires forall i :: 1 <= i < |ext| ==> ext[i] != '.'
    ensures Extension(stem + ext) == ext
  {
    var p := stem + ext;
    var pos := |stem|;
    assert p[pos..] == ext;
    assert p[pos] == '.';
    assert forall j :: pos < j < |p| ==> p[j] != '.' by {
      forall j | pos < j < |p| ensures p[j] != '.' {
        assert p[j] == ext[j - pos];
      }
    }
    assert forall j :: 0 <= j < |p| ==> p[j] != '/' by {
      forall j | 0 <= j < |p| ensures p[j] != '/' {
        if j < pos {
          assert p[j] == stem[j];
        } else {
          assert p[j] == ext[j - pos];
        }
      }
    }
    assert RFind(p, '.') == pos;
    assert RFind(p, '/') == -1;
    var i :| 0 <= i < |stem| && stem[i] != '.';
    assert p[i] == stem[i];
  }

  /** The stored upload keeps the extension it was accepted with, and lower-casing does not change it. */
  lemma ExtensionOfUpload(ts: string, ext: string)
    requires IsStampText(ts) && ext in AllowedExtensions
    ensures Extension(UploadName(ts, ext)) == ext
    ensures LowerAscii(ext) == ext
  {
    AllowedShape(ext);
    var stem := "video_" + ts;
    assert UploadName(ts, ext) == stem + ext;
    assert '.' !in stem && '/' !in stem by {
      forall j | 0 <= j < |stem| ensures stem[j] != '.' && stem[j] != '/' {
        if j >= 6 {
          assert stem[j] == ts[j - 6];
          assert Text.IsDigit(ts[j - 6]) || ts[j - 6] == '_';
        }
      }
    }
    assert stem[0] != '.';
    ExtensionOfStem(stem, ext);
  }

  /** Recovering the timestamp from a job key undoes `OutputName` for every strftime stamp. */
  lemma TimestampRoundTrip(ts: string)
    requires IsStampText(ts)
    ensures TimestampOf(OutputName(ts)) == ts
  {
    var tail := ts + ".mp4";
    assert OutputName(ts) == "detected_" + tail;
    Text.ReplaceAtFront("detected_", tail, "");
    assert 'd' !in tail by {
      forall i | 0 <= i < |tail| ensures tail[i] != 'd' {
        if i < |ts| {
          assert Text.IsDigit(ts[i]) || ts[i] == '_';
        }
      }
    }
    Text.ReplaceAbsent(tail, "detected_", "");
    assert Text.ReplaceAll(OutputName(ts), "detected_", "") == tail;
    assert '.' !in ts by {
      forall i | 0 <= i < |ts| ensures ts[i] != '.' {
        assert Text.IsDigit(ts[i]) || ts[i] == '_';
      }
    }
    Text.ReplaceSkipsPrefix(ts, ".mp4", ".mp4", "");
    Text.ReplaceAtFront(".mp4", "", "");
    assert ".mp4" + "" == ".mp4";
    assert Text.ReplaceAll("", ".mp4", "") == "";
    assert Text.ReplaceAll(tail, ".mp4", "") == ts;
  }

  /** The probe list covers exactly the accepted extensions. */
  lemma CandidatesAreAllowed()
    ensures forall ext :: ext in AllowedExtensions <==> ext in CandidateExtensions
  {
  }

  /**
    Every accepted upload is found again by `delete_video`: its stored path is
    one of the paths probed for its job key.
  */
  lemma UploadIsProbed(ts: string, ext: string)
    requires IsStampText(ts) && ext in AllowedExtensions
    ensures Join(UploadFolder, UploadName(ts, ext)) in OriginalCandidates(TimestampOf(OutputName(ts)))
  {
    TimestampRoundTrip(ts);
    CandidatesAreAllowed();
    var i :| 0 <= i < |CandidateExtensions| && CandidateExtensions[i] == ext;
    assert OriginalCandidates(ts)[i] == Join(UploadFolder, UploadName(ts, ext));
  }
}
