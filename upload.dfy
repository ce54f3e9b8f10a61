/** The upload screen of src/App.tsx: which files it accepts, how it reads them, and the
    simulated progress bar that has to fill before the user may proceed. Reading and
    parsing the file are not part of this model; their outcome is an event the state
    machine receives. */
module Upload {
  import opened Table

  /** `file.name.split(".").pop()`: the text after the last dot, or the whole name. */
  function LastSegment(name: string): (r: string)
    ensures |r| <= |name| && r == name[|name| - |r|..]
    ensures '.' !in r
    ensures |r| < |name| ==> name[|name| - |r| - 1] == '.'
    ensures '.' !in name ==> r == name
  {
    if name == [] then []
    else if name[|name| - 1] == '.' then []
    else
      var r := LastSegment(name[..|name| - 1]) + [name[|name| - 1]];
      assert name == name[..|name| - 1] + [name[|name| - 1]];
      r
  }

  /** The lowercased extension `handleFile` tests. */
  function Extension(name: string): string {
    Lower(LastSegment(name))
  }

  /** `validFileTypes`. */
  const ValidFileTypes: seq<string> := [
    "text/csv",
    "application/vnd.ms-excel",
    "application/vnd.openxmlformats-officedocument.spreadsheetml.sheet",
    "application/vnd.ms-office",
    "application/octet-stream"
  ]

  const SpreadsheetExtensions: seq<string> := ["csv", "xlsx", "xls"]

  datatype FileInfo = FileInfo(name: string, mime: string)

  /** A file passes when its MIME type or its extension is one of the spreadsheet ones. */
  predicate Accepts(file: FileInfo) {
    file.mime in ValidFileTypes || Extension(file.name) in SpreadsheetExtensions
  }

  /** The extension of a name is whatever follows its last dot, lowercased: for
      `base + "." + ext` with no dot in `ext` it is `ext`, whatever `base` holds. */
  lemma ExtensionAfterLastDot(base: string, ext: string)
    requires '.' !in ext
    ensures LastSegment(base + "." + ext) == ext
    ensures Extension(base + "." + ext) == Lower(ext)
  {
    var name := base + "." + ext;
    assert name[|base|] == '.';
    assert name[|name| - |ext|..] == ext;
  }

  /** A file named `base + "." + ext` is accepted exactly when its MIME type is listed or
      `ext`, lowercased, is "csv", "xlsx" or "xls", whatever `base` holds. */
  lemma AcceptsDotted(base: string, ext: string, mime: string)
    requires '.' !in ext
    ensures Accepts(FileInfo(base + "." + ext, mime)) <==>
      mime in ValidFileTypes || Lower(ext) == "csv" || Lower(ext) == "xlsx" || Lower(ext) == "xls"
  {
    ExtensionAfterLastDot(base, ext);
  }

  /** How the `FileReader` is asked to read the file. */
  datatype ReadMode = ReadText | ReadArrayBuffer

  /** The upload state (`uploadState`) and `isReadyToProceed`. */
  class Uploader {
    var file: Option<FileInfo>
    var progress: int
    var uploading: bool
    var ready: bool

    /** The bar stays within 0..100 in steps of 10, and only a stored file is uploading. */
    ghost predicate Valid()
      reads this
    {
      0 <= progress <= 100 && progress % 10 == 0 && (uploading ==> file.Some?)
    }

    constructor ()
      ensures Valid()
      ensures file == None && progress == 0 && !uploading && !ready
    {
      file := None;
      progress := 0;
      uploading := false;
      ready := false;
    }

    /** `handleFile`: nothing happens without a file or for a rejected one; an accepted
        file is stored with an empty bar, uploading and not ready, and is read as text
        when its extension is "csv" and as an array buffer otherwise. */
    method HandleFile(f: Option<FileInfo>) returns (read: Option<ReadMode>)
      requires Valid()
      modifies this
      ensures Valid()
      ensures read.Some? <==> f.Some? && Accepts(f.value)
      ensures read.Some? ==> (read.value == ReadText <==> Extension(f.value.name) == "csv")
      ensures read.Some? ==> file == f && progress == 0 && uploading && !ready
      ensures read.None? ==>
        file == old(file) && progress == old(progress) && uploading == old(uploading) && ready == old(ready)
    {
      if f.None? || !Accepts(f.value) {
        return None;
      }
      file, progress, uploading := f, 0, true;
      ready := false;
      var isCsv := Extension(f.value.name) == "csv";
      read := if isCsv then Some(ReadText) else Some(ReadArrayBuffer);
    }

    /** One tick of the progress interval. `done` says the interval clears itself. */
    method Step() returns (done: bool)
      requires Valid()
      modifies this
      ensures Valid()
      ensures progress == NextProgress(old(progress))
      ensures done <==> old(progress) + 10 >= 100
      ensures done ==> progress == 100 && !uploading && ready
      ensures !done ==> uploading == old(uploading) && ready == old(ready)
      ensures file == old(file)
    {
      var newProgress := progress + 10;
      if newProgress >= 100 {
        done := true;
        ready := true;
        progress, uploading := 100, false;
      } else {
        done := false;
        progress := newProgress;
      }
    }

    /** The parse of the file failed: the upload state empties; readiness is not touched. */
    method ParseFailed()
      requires Valid()
      modifies this
      ensures Valid()
      ensures file == None && progress == 0 && !uploading && ready == old(ready)
    {
      file, progress, uploading := None, 0, false;
    }

    /** `resetFile`. */
    method Reset()
      modifies this
      ensures Valid()
      ensures file == None && progress == 0 && !uploading && !ready
    {
      file, progress, uploading := None, 0, false;
      ready := false;
    }
  }

  /** The progress after one tick. */
  function NextProgress(p: int): (r: int)
    ensures 0 <= p <= 100 ==> 0 <= r <= 100
    ensures p % 10 == 0 ==> r % 10 == 0
    ensures 0 <= p && r < 100 ==> r == p + 10
  {
    if p + 10 >= 100 then 100 else p + 10
  }

  /** The progress after `k` ticks from an empty bar. */
  function ProgressAfter(k: nat): int {
    if k == 0 then 0 else NextProgress(ProgressAfter(k - 1))
  }

  /** From an empty bar the progress after `k` ticks is `min(10k, 100)`. */
  lemma {:induction false} ProgressAfterTicks(k: nat)
    ensures ProgressAfter(k) == if 10 * k >= 100 then 100 else 10 * k
  {
    if k > 0 {
      ProgressAfterTicks(k - 1);
    }
  }

  /** The interval clears itself on exactly the tenth tick after an accepted file. */
  lemma TenthTickCompletes()
    ensures ProgressAfter(10) == 100
    ensures forall k: nat :: k < 10 ==> (ProgressAfter(k) + 10 >= 100 <==> k == 9)
  {
    ProgressAfterTicks(10);
    forall k: nat | k < 10 ensures ProgressAfter(k) + 10 >= 100 <==> k == 9 {
      ProgressAfterTicks(k);
    }
  }
}
