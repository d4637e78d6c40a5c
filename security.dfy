/**
 * The upload guards: the extension and size checks, the scan of a file's first bytes for
 * suspicious patterns, the aggregation of all checks in `validate_file`, and the sliding-window
 * rate limiter. File system access, MIME sniffing and hashing are inputs: whether the file
 * exists, its size, what the MIME detector reports (or that it raised), what reading the file
 * gives, and whether hashing succeeded.
 */
module Security {
  import opened Strings
  import opened Utils

  newtype byte = x: int | 0 <= x < 256

  const AllowedExtensions: seq<string> := [".epub", ".pdf"]

  /** `MAX_FILE_SIZE` with no `UPLOAD_MAX_SIZE` override: 100 MiB. */
  const MaxFileSize: int := 104857600

  /** The final component of a path, or "" for `.` and `/`. */
  function Name(p: string): string
  {
    var parts := ParsePath(p).parts;
    if parts == [] then "" else parts[|parts| - 1]
  }

  /** `s.rfind(c)`: the last position of `c`, or -1. */
  function RFind(s: string, c: char): (i: int)
    ensures -1 <= i < |s|
  {
    if s == [] then -1
    else if s[|s| - 1] == c then |s| - 1
    else RFind(s[..|s| - 1], c)
  }

  /** `Path(p).suffix`: from the last dot of the name, unless that dot starts or ends the name. */
  function Suffix(p: string): string
  {
    var name := Name(p);
    var i := RFind(name, '.');
    if 0 < i < |name| - 1 then name[i..] else ""
  }

  /** `validate_file_extension`. */
  function ValidateFileExtension(filename: string): (ok: bool)
    ensures ok <==> Lower(Suffix(filename)) in AllowedExtensions
  {
    Lower(Suffix(filename)) in AllowedExtensions
  }

  /** `validate_file_size`: the bound is inclusive. */
  function ValidateFileSize(fileSize: int): (ok: bool)
    ensures ok <==> fileSize <= 100 * 1024 * 1024
  {
    fileSize <= MaxFileSize
  }

  /** Lowercasing slices and lowercasing commute. */
  lemma LowerSuffix(s: string, i: nat)
    requires i <= |s|
    ensures Lower(s)[i..] == Lower(s[i..])
  {
    LowerPointwise(s);
    LowerPointwise(s[i..]);
    assert forall k :: 0 <= k < |s| - i ==> Lower(s)[i..][k] == Lower(s[i..])[k];
  }

  /**
   * A file name with no directory part that passes the extension check also passes
   * `is_allowed_file_type` with the same extensions.
   */
  lemma ExtensionCheckImpliesAllowedType(filename: string)
    requires '/' !in filename
    ensures ValidateFileExtension(filename) ==> IsAllowedFileType(filename, AllowedExtensions)
  {
    var suffix := Suffix(filename);
    if ValidateFileExtension(filename) {
      var extension := Lower(suffix);
      assert EndsWith(Lower(filename), extension) by {
        SuffixOfPlainName(filename);
        LowerSuffix(filename, |filename| - |suffix|);
      }
      var k := if extension == AllowedExtensions[0] then 0 else 1;
      assert EndsWith(Lower(filename), AllowedExtensions[k]);
    }
  }

  /** Without a directory part, the suffix is a tail of the file name itself. */
  lemma SuffixOfPlainName(filename: string)
    requires '/' !in filename
    ensures |Suffix(filename)| <= |filename|
    ensures Suffix(filename) == filename[|filename| - |Suffix(filename)|..]
  {
    SplitWithoutSeparator(filename, '/');
    assert KeepParts([filename]) == (if filename == "" || filename == "." then [] else [filename]);
    var name := Name(filename);
    assert name == "" || name == filename;
  }

  /** `.epub` is a name whose only dot starts it, so it has no suffix. */
  lemma DotfileHasNoSuffix()
    ensures Suffix(".epub") == ""
  {
    DotfileName();
    DotfileLastDot();
  }

  lemma DotfileName()
    ensures Name(".epub") == ".epub"
  {
    SplitWithoutSeparator(".epub", '/');
  }

  lemma DotfileLastDot()
    ensures RFind(".epub", '.') == 0
  {
    assert ".epub"[..4] == ".epu" && ".epu"[..3] == ".ep" && ".ep"[..2] == ".e" && ".e"[..1] == ".";
    assert RFind(".", '.') == 0;
  }

  /** `.epub` ends with the first allowed extension once lowercased. */
  lemma DotfileEndsWithEpub()
    ensures IsAllowedFileType(".epub", AllowedExtensions)
  {
    assert Lower(".epub") == ".epub" by {
      LowerPointwise(".epub");
    }
    assert EndsWith(Lower(".epub"), AllowedExtensions[0]);
  }

  /** The two extension checks disagree: a file named only ".epub" has no suffix in `pathlib`'s sense. */
  lemma DotfileExtension()
    ensures !ValidateFileExtension(".epub")
    ensures IsAllowedFileType(".epub", AllowedExtensions)
  {
    DotfileHasNoSuffix();
    assert Lower("") == "";
    DotfileEndsWithEpub();
  }

  /** The patterns looked for, in the order they are reported. */
  const SuspiciousPatterns: seq<string> :=
    ["<script", "javascript:", "<?php", "<%", "<iframe", "eval(", "document.write", "window.location"]

  /** The bytes of a pattern literal (every pattern is ASCII, so each character is one byte). */
  function AsciiBytes(s: string): (b: seq<byte>)
    ensures |b| == |s|
  {
    if s == [] then [] else [(s[0] as int % 256) as byte] + AsciiBytes(s[1..])
  }

  /** `bytes.lower()`: only `A`-`Z` change. */
  function LowerBytes(b: seq<byte>): (r: seq<byte>)
    ensures |r| == |b|
    ensures forall k :: 0 <= k < |b| ==> r[k] == (if 65 <= b[k] <= 90 then b[k] + 32 else b[k])
  {
    if b == [] then [] else [if 65 <= b[0] <= 90 then b[0] + 32 else b[0]] + LowerBytes(b[1..])
  }

  /** What opening and reading the file gives. */
  datatype ReadResult = Read(content: seq<byte>) | ReadError(message: string)

  datatype Threat = SuspiciousPattern(pattern: string) | ScanFailed(message: string)

  /** `f.read(max_scan_size)`: a negative size reads everything. */
  function ScannedPrefix(content: seq<byte>, maxScanSize: int): (r: seq<byte>)
    ensures |r| <= |content| && r == content[..|r|]
    ensures 0 <= maxScanSize ==> |r| == Min(maxScanSize, |content|)
  {
    if maxScanSize < 0 || |content| <= maxScanSize then content else content[..maxScanSize]
  }

  function Min(a: int, b: int): int
  {
    if a <= b then a else b
  }

  /** The patterns among `patterns` that occur in `lowered`, in list order. */
  function PatternsFound(patterns: seq<string>, lowered: seq<byte>): seq<Threat>
  {
    if patterns == [] then []
    else
      (if Contains(lowered, AsciiBytes(patterns[0])) then [SuspiciousPattern(patterns[0])] else [])
      + PatternsFound(patterns[1..], lowered)
  }

  /** The threats a scan reports. */
  function ScanResult(file: ReadResult, maxScanSize: int): seq<Threat>
  {
    match file
    case ReadError(message) => [ScanFailed(message)]
    case Read(bytes) => PatternsFound(SuspiciousPatterns, LowerBytes(ScannedPrefix(bytes, maxScanSize)))
  }

  /** The loop of `scan_for_malicious_content` over the pattern list. */
  method FindPatterns(patterns: seq<string>, lowered: seq<byte>) returns (threats: seq<Threat>)
    ensures threats == PatternsFound(patterns, lowered)
  {
    threats := [];
    for k := 0 to |patterns|
      invariant threats + PatternsFound(patterns[k..], lowered) == PatternsFound(patterns, lowered)
    {
      assert patterns[k..][1..] == patterns[k + 1..];
      var pattern := patterns[k];
      if Contains(lowered, AsciiBytes(pattern)) {
        threats := threats + [SuspiciousPattern(pattern)];
      }
    }
    assert patterns[|patterns|..] == [];
  }

  /** `scan_for_malicious_content`: one threat per pattern found, or one for a failed read. */
  method ScanForMaliciousContent(file: ReadResult, maxScanSize: int) returns (threats: seq<Threat>)
    ensures threats == ScanResult(file, maxScanSize)
  {
    match file {
      case ReadError(message) =>
        threats := [ScanFailed(message)];
      case Read(bytes) =>
        var content := ScannedPrefix(bytes, maxScanSize);
        threats := FindPatterns(SuspiciousPatterns, LowerBytes(content));
    }
  }

  /**
   * A pattern is reported exactly when it is one of the list's and occurs in the lowered
   * content; there are never more reports than patterns.
   */
  lemma {:induction false} PatternsFoundSound(patterns: seq<string>, lowered: seq<byte>)
    ensures var found := PatternsFound(patterns, lowered);
      && |found| <= |patterns|
      && (forall t :: t in found ==>
           (t.SuspiciousPattern? && t.pattern in patterns && Contains(lowered, AsciiBytes(t.pattern))))
      && (forall p | p in patterns && Contains(lowered, AsciiBytes(p)) :: SuspiciousPattern(p) in found)
  {
    if patterns != [] {
      PatternsFoundSound(patterns[1..], lowered);
    }
  }

  /** The errors `validate_file` reports; `Message` gives each one's text. */
  datatype FileError = NotFound | BadExtension | TooLarge | BadMimeType(expected: string)

  /** The warnings `validate_file` reports. */
  datatype FileWarning = ThreatFound(threat: Threat) | HashFailed

  function ErrorMessage(e: FileError): string
  {
    match e
    case NotFound => "File not found"
    case BadExtension => "Invalid file extension. Allowed: .epub, .pdf"
    case TooLarge => "File too large. Maximum size: 104857600 bytes"
    case BadMimeType(expected) => "Invalid file type. Expected " + expected
  }

  function WarningMessage(w: FileWarning): string
  {
    match w
    case ThreatFound(SuspiciousPattern(p)) => "Suspicious pattern found: " + p
    case ThreatFound(ScanFailed(m)) => "Failed to scan file: " + m
    case HashFailed => "Failed to calculate file hash"
  }

  /** The result dictionary of `validate_file`. */
  datatype FileReport = FileReport(valid: bool, errors: seq<FileError>, warnings: seq<FileWarning>, fileHash: Option<string>)

  /** `ALLOWED_MIME_TYPES.get(expected_type, [])`. */
  function AllowedMimeTypes(expectedType: string): seq<string>
  {
    if expectedType == "epub" then ["application/epub+zip", "application/zip"]
    else if expectedType == "pdf" then ["application/pdf"]
    else []
  }

  /** `validate_mime_type`: the detector's answer, or the extension of the stored path when it raised. */
  function ValidateMimeType(filePath: string, detected: Option<string>, expectedType: string): (ok: bool)
    ensures detected.Some? && expectedType != "epub" && expectedType != "pdf" ==> !ok
    ensures detected == Some("application/zip") ==> (ok <==> expectedType == "epub")
    ensures detected == Some("application/pdf") ==> (ok <==> expectedType == "pdf")
    ensures detected.None? ==> (ok <==> Lower(Suffix(filePath)) in AllowedExtensions)
  {
    match detected
    case Some(mime) => mime in AllowedMimeTypes(expectedType)
    case None => ValidateFileExtension(filePath)
  }

  function AsWarnings(threats: seq<Threat>): (r: seq<FileWarning>)
    ensures |r| == |threats| && forall k :: 0 <= k < |r| ==> r[k] == ThreatFound(threats[k])
  {
    if threats == [] then [] else [ThreatFound(threats[0])] + AsWarnings(threats[1..])
  }

  function ErrorIf(failed: bool, e: FileError): seq<FileError>
  {
    if failed then [e] else []
  }

  /** The errors of the three checks, each added when its check fails, in the order they run. */
  function CheckErrors(extOk: bool, sizeOk: bool, mimeOk: bool, expectedType: string): seq<FileError>
  {
    ErrorIf(!extOk, BadExtension) + ErrorIf(!sizeOk, TooLarge) + ErrorIf(!mimeOk, BadMimeType(expectedType))
  }

  /** The warnings: one per threat the scan reports, then one more when hashing failed. */
  function Warnings(file: ReadResult, hash: Option<string>): seq<FileWarning>
  {
    AsWarnings(ScanResult(file, 1024 * 1024)) + (if hash.None? then [HashFailed] else [])
  }

  /** The error-collecting part of `validate_file`: each failed check marks the file invalid. */
  method CollectErrors(extOk: bool, sizeOk: bool, mimeOk: bool, expectedType: string)
    returns (valid: bool, errors: seq<FileError>)
    ensures valid <==> errors == []
    ensures valid <==> extOk && sizeOk && mimeOk
    ensures errors == CheckErrors(extOk, sizeOk, mimeOk, expectedType)
  {
    valid, errors := true, [];
    if !extOk {
      valid, errors := false, errors + [BadExtension];
    }
    if !sizeOk {
      valid, errors := false, errors + [TooLarge];
    }
    if !mimeOk {
      valid, errors := false, errors + [BadMimeType(expectedType)];
    }
  }

  /** The warning-collecting part of `validate_file`: the scan, then the hash. */
  method CollectWarnings(file: ReadResult, hash: Option<string>)
    returns (warnings: seq<FileWarning>, fileHash: Option<string>)
    ensures warnings == Warnings(file, hash)
    ensures fileHash == hash
  {
    warnings, fileHash := [], None;
    var threats := ScanForMaliciousContent(file, 1024 * 1024);
    if threats != [] {
      warnings := AsWarnings(threats);
    }
    assert warnings == AsWarnings(threats);
    match hash {
      case Some(h) => fileHash := Some(h);
      case None => warnings := warnings + [HashFailed];
    }
  }

  /**
   * `validate_file`. A missing file gives exactly one error at once; otherwise the extension,
   * size and MIME checks each add their error when they fail, in that order; threats become
   * warnings, a failed hash adds a last warning, and neither affects validity.
   */
  method ValidateFile(present: bool, filePath: string, filename: string, expectedType: string,
                      fileSize: int, detectedMime: Option<string>, file: ReadResult, hash: Option<string>)
    returns (report: FileReport)
    ensures !present ==> report == FileReport(false, [NotFound], [], None)
    ensures present ==>
      var extOk := ValidateFileExtension(filename);
      var sizeOk := ValidateFileSize(fileSize);
      var mimeOk := ValidateMimeType(filePath, detectedMime, expectedType);
      && (report.valid <==> extOk && sizeOk && mimeOk)
      && (report.valid <==> report.errors == [])
      && report.errors == CheckErrors(extOk, sizeOk, mimeOk, expectedType)
      && report.warnings == Warnings(file, hash)
      && report.fileHash == hash
  {
    if !present {
      return FileReport(false, [NotFound], [], None);
    }
    var extOk := ValidateFileExtension(filename);
    var sizeOk := ValidateFileSize(fileSize);
    var mimeOk := ValidateMimeType(filePath, detectedMime, expectedType);
    var valid, errors := CollectErrors(extOk, sizeOk, mimeOk, expectedType);
    var warnings, fileHash := CollectWarnings(file, hash);
    report := FileReport(valid, errors, warnings, fileHash);
  }

  /** The timestamps still inside the window: `now - t < window`, in their order. */
  function Recent(times: seq<real>, now: real, window: int): (r: seq<real>)
    ensures |r| <= |times|
    ensures forall t :: t in r ==> t in times && now - t < window as real
    ensures forall i | 0 <= i < |times| && now - times[i] < window as real :: times[i] in r
  {
    if times == [] then []
    else
      var rest := Recent(times[1..], now, window);
      assert forall i | 1 <= i < |times| :: times[i] == times[1..][i - 1];
      if now - times[0] < window as real then [times[0]] + rest else rest
  }

  /**
   * Pruning keeps order: the timestamps kept from `a + b` are those kept from `a` followed by
   * those kept from `b`. With the single-timestamp case this fixes the kept list entirely.
   */
  lemma {:induction false} RecentAppend(a: seq<real>, b: seq<real>, now: real, window: int)
    ensures Recent(a + b, now, window) == Recent(a, now, window) + Recent(b, now, window)
    ensures |a| == 1 ==> Recent(a, now, window) == (if now - a[0] < window as real then a else [])
  {
    if a == [] {
      assert a + b == b;
    } else {
      assert (a + b)[0] == a[0] && (a + b)[1..] == a[1..] + b;
      RecentAppend(a[1..], b, now, window);
      if now - a[0] < window as real {
        assert Recent(a + b, now, window) == [a[0]] + (Recent(a[1..], now, window) + Recent(b, now, window));
      }
    }
  }

  /** The in-memory rate limiter: a list of request times per client. */
  class RateLimiter {
    var requests: map<string, seq<real>>
    var maxRequests: int
    var timeWindow: int

    /** No client holds more than `max(0, maxRequests)` timestamps. */
    predicate Valid()
      reads this
    {
      forall ip :: ip in requests ==> |requests[ip]| <= Max(0, maxRequests)
    }

    /** The limits come from `RATE_LIMIT_REQUESTS` and `RATE_LIMIT_WINDOW` (10 and 3600 by default). */
    constructor(maxRequests: int, timeWindow: int)
      ensures Valid()
      ensures this.requests == map[] && this.maxRequests == maxRequests && this.timeWindow == timeWindow
    {
      this.requests := map[];
      this.maxRequests := maxRequests;
      this.timeWindow := timeWindow;
    }

    /** `get_remaining_requests`, counted over the list as stored (not pruned). */
    function GetRemainingRequests(clientIp: string): (r: int)
      reads this
      ensures clientIp !in requests ==> r == maxRequests
      ensures clientIp in requests ==> r >= 0 && r >= maxRequests - |requests[clientIp]|
    {
      if clientIp !in requests then maxRequests else Max(0, maxRequests - |requests[clientIp]|)
    }

    /**
     * `is_allowed`: the client's list is pruned to the window; a full list denies the request
     * without recording it; otherwise `now` is recorded and the request allowed.
     */
    method IsAllowed(clientIp: string, now: real) returns (allowed: bool)
      requires Valid()
      modifies this
      ensures Valid()
      ensures maxRequests == old(maxRequests) && timeWindow == old(timeWindow)
      ensures var kept := if clientIp in old(requests) then Recent(old(requests)[clientIp], now, timeWindow) else [];
        && (allowed <==> |kept| < maxRequests)
        && requests == old(requests)[clientIp := if allowed then kept + [now] else kept]
        && (allowed ==> GetRemainingRequests(clientIp) == maxRequests - |kept| - 1)
        && (!allowed ==> GetRemainingRequests(clientIp) == 0 || |kept| > maxRequests)
    {
      if clientIp in requests {
        requests := requests[clientIp := Recent(requests[clientIp], now, timeWindow)];
      } else {
        requests := requests[clientIp := []];
      }
      if |requests[clientIp]| >= maxRequests {
        return false;
      }
      requests := requests[clientIp := requests[clientIp] + [now]];
      return true;
    }
  }
}
