/** The updater: download to a temporary file with progress events, an
    optional checksum step that fails hard only on a definite problem, the
    atomic replacement of the target binary, and the stage events emitted
    along the way.

    The environment is an input. `Network` answers the two GET requests and
    computes SHA-256 digests (as lower-case hex); `FileSystem` holds the files
    and the set of file operations that will fail; the replacement library
    is one operation of `FileSystem` that either installs the new binary or
    leaves everything as it was. */
module Updater {
  import opened Wrappers
  import opened GoStrings

  newtype byte = x: int | 0 <= x < 256

  datatype Stage = Downloading | Verifying | Replacing | Complete | Failed

  datatype UpdateError =
    | MissingDownloadURL
    | MissingTargetPath
    | CreateTempFailed
    | DownloadRequestFailed
    | DownloadStatus(code: int)
    | CreateOutputFailed
    | WriteFailed
    | ChmodFailed
    | OpenForHashFailed
    | HashFailed
    | ChecksumMismatch(expected: string, actual: string)
    | OpenBinaryFailed
    | SelfUpdateFailed

  /** What Apply returns: the cause wrapped with the step that failed. */
  datatype ApplyError =
    | ConfigError(cause: UpdateError)
    | DownloadFailed(cause: UpdateError)
    | ChecksumFailed(cause: UpdateError)
    | ReplaceFailed(cause: UpdateError)

  datatype UpdateProgress = UpdateProgress(
    stage: Stage,
    percent: int,
    bytesTotal: int,
    bytesDone: int,
    error: Option<UpdateError>)

  datatype UpdaterConfig = UpdaterConfig(downloadURL: string, checksumURL: string, targetPath: string)

  /** The binary server's answer: unreachable, or a status, the announced
      Content-Length (-1 when unknown), the successive pieces the body is read
      in, and whether reading stopped with an error instead of end-of-file. */
  datatype DownloadReply =
    | DownloadUnreachable
    | DownloadReply(status: int, contentLength: int, chunks: seq<seq<byte>>, interrupted: bool)

  /** The manifest server's answer; a body of None could not be read. */
  datatype ChecksumReply =
    | ChecksumUnreachable
    | ChecksumReply(status: int, body: Option<string>)

  /** The servers: what each URL answers (a URL not listed is unreachable),
      and the SHA-256 digest function as lower-case hex. */
  datatype Network = Network(
    binaries: map<string, DownloadReply>,
    manifests: map<string, ChecksumReply>,
    sha256: seq<byte> -> string)

  function BinaryReply(net: Network, url: string): DownloadReply
  {
    if url in net.binaries then net.binaries[url] else DownloadUnreachable
  }

  function ManifestReply(net: Network, url: string): ChecksumReply
  {
    if url in net.manifests then net.manifests[url] else ChecksumUnreachable
  }

  datatype File = File(content: seq<byte>, executable: bool)

  /** The file operations that can fail. */
  datatype FsOp = CreateTempOp | CreateOp | WriteOp | ChmodOp | OpenForHashOp | HashOp | OpenBinaryOp | SelfUpdateOp

  /** The progress-callback installed in an updater. */
  datatype Callback = NoOp | Observer(name: string)

  // ---------------------------------------------------------------------
  // Progress arithmetic

  /** Go's integer division, which truncates toward zero. */
  function GoQuotient(a: int, b: int): (q: int)
    requires b != 0
    ensures a >= 0 && b > 0 ==> q == a / b
  {
    var m := (if a < 0 then -a else a) / (if b < 0 then -b else b);
    if (a < 0) == (b < 0) then m else -m
  }

  /** The percent computation as the download callback writes it, with no
      guard on the total size (zero panics, so it is excluded here). */
  function PercentAsWritten(done: int, total: int): int
    requires total != 0
  {
    GoQuotient(done * 100, total)
  }

  /** With an unknown Content-Length (-1) the unguarded formula reports a
      negative percent: 5 bytes read give -500. */
  lemma UnknownLengthPercentAsWritten()
    ensures PercentAsWritten(5, -1) == -500
    ensures !(0 <= PercentAsWritten(5, -1) <= 100)
  {
  }

  /** The guarded percent: floor(done * 100 / total) for a known total, 0 otherwise. */
  function Percent(done: int, total: int): (p: int)
    ensures total <= 0 ==> p == 0
    ensures total > 0 && 0 <= done <= total ==> 0 <= p <= 100
    ensures total > 0 && done == total ==> p == 100
    ensures total > 0 && done >= 0 ==> p == PercentAsWritten(done, total)
  {
    if total > 0 then
      PercentBounds(done, total);
      done * 100 / total
    else 0
  }

  lemma PercentBounds(done: int, total: int)
    requires total > 0
    ensures 0 <= done <= total ==> 0 <= done * 100 / total <= 100
    ensures done == total ==> done * 100 / total == 100
  {
    if 0 <= done <= total {
      DivAtMost(done * 100, total, 100);
    }
    if done == total {
      DivAtLeast(done * 100, total, 100);
    }
  }

  lemma DivAtMost(a: int, b: int, k: int)
    requires b > 0 && 0 <= a <= k * b && k >= 0
    ensures 0 <= a / b <= k
  {
  }

  lemma DivAtLeast(a: int, b: int, k: int)
    requires b > 0 && a >= k * b && k >= 0
    ensures a / b >= k
  {
    var q, r := a / b, a % b;
    assert a == q * b + r && r < b;
    if q < k {
      MulMonotone(q, k - 1, b);
    }
  }

  lemma MulMonotone(x: int, y: int, b: int)
    requires x <= y && b > 0
    ensures x * b <= y * b
  {
    assert y * b - x * b == (y - x) * b;
  }

  // ---------------------------------------------------------------------
  // Events

  function StageEvent(s: Stage): UpdateProgress
  {
    UpdateProgress(s, 0, 0, 0, None)
  }

  function FailedEvent(e: UpdateError): UpdateProgress
  {
    UpdateProgress(Failed, 0, 0, 0, Some(e))
  }

  function DownloadEvent(done: int, total: int): UpdateProgress
  {
    UpdateProgress(Downloading, Percent(done, total), total, done, None)
  }

  function Sum(chunks: seq<seq<byte>>): nat
  {
    if |chunks| == 0 then 0 else Sum(chunks[..|chunks| - 1]) + |chunks[|chunks| - 1]|
  }

  function Concat(chunks: seq<seq<byte>>): (r: seq<byte>)
  {
    if |chunks| == 0 then [] else Concat(chunks[..|chunks| - 1]) + chunks[|chunks| - 1]
  }

  /** Empty pieces contribute no bytes. */
  lemma {:induction false} ConcatOfEmpty(chunks: seq<seq<byte>>)
    requires forall j | 0 <= j < |chunks| :: chunks[j] == []
    ensures Concat(chunks) == []
  {
    if |chunks| > 0 {
      ConcatOfEmpty(chunks[..|chunks| - 1]);
    }
  }

  /** One downloading event per non-empty piece read, carrying the bytes
      read so far. */
  function ProgressEvents(chunks: seq<seq<byte>>, total: int): seq<UpdateProgress>
  {
    if |chunks| == 0 then []
    else
      ProgressEvents(chunks[..|chunks| - 1], total)
      + (if |chunks[|chunks| - 1]| > 0 then [DownloadEvent(Sum(chunks), total)] else [])
  }

  /** The progress events are downloading events whose byte counts are
      positive, at most the total number of bytes read, and end at it; there
      are none exactly when nothing was read. */
  lemma {:induction false} ProgressEventsBounded(chunks: seq<seq<byte>>, total: int)
    ensures var ev := ProgressEvents(chunks, total);
      && (forall k | 0 <= k < |ev| :: ev[k] == DownloadEvent(ev[k].bytesDone, total) && 0 < ev[k].bytesDone <= Sum(chunks))
      && (ev != [] ==> ev[|ev| - 1].bytesDone == Sum(chunks))
      && (ev == [] <==> Sum(chunks) == 0)
  {
    if |chunks| > 0 {
      var init := chunks[..|chunks| - 1];
      ProgressEventsBounded(init, total);
      var ev, ev' := ProgressEvents(chunks, total), ProgressEvents(init, total);
      assert forall k | 0 <= k < |ev'| :: ev[k] == ev'[k];
    }
  }

  /** The byte counts of successive progress events strictly increase. */
  lemma {:induction false} ProgressEventsIncreasing(chunks: seq<seq<byte>>, total: int)
    ensures var ev := ProgressEvents(chunks, total);
      forall k, l | 0 <= k < l < |ev| :: ev[k].bytesDone < ev[l].bytesDone
  {
    if |chunks| > 0 {
      var init := chunks[..|chunks| - 1];
      ProgressEventsIncreasing(init, total);
      ProgressEventsBounded(init, total);
      var ev, ev' := ProgressEvents(chunks, total), ProgressEvents(init, total);
      assert forall k | 0 <= k < |ev'| :: ev[k] == ev'[k];
      if |ev| > |ev'| {
        assert ev[|ev| - 1].bytesDone == Sum(chunks);
      }
    }
  }

  /** When the announced size is known and the body does not exceed it, every
      progress event reports a percent in [0,100] and no more bytes than the
      total; when the whole announced size was read, the last one reports 100. */
  lemma ProgressPercentBounds(chunks: seq<seq<byte>>, total: int)
    requires total > 0 && Sum(chunks) <= total
    ensures var ev := ProgressEvents(chunks, total);
      && (forall k | 0 <= k < |ev| :: 0 <= ev[k].percent <= 100 && 0 <= ev[k].bytesDone <= ev[k].bytesTotal)
      && (Sum(chunks) == total ==> ev != [] && ev[|ev| - 1].percent == 100)
  {
    ProgressEventsBounded(chunks, total);
  }

  // ---------------------------------------------------------------------
  // Checksum manifest

  /** A manifest name matches the file exactly or as the last path element. */
  predicate NameMatches(name: string, filename: string)
  {
    name == filename || HasSuffix(name, "/" + filename)
  }

  /** The digest a manifest line gives for `filename`: the first field of a
      non-blank line of at least two fields whose last field matches. */
  function LineEntry(line: string, filename: string): (r: Option<string>)
    ensures r.Some? ==> r.value != []
  {
    var t := TrimSpace(line);
    if t == [] then None
    else
      var parts := Fields(t);
      FieldsAreTokens(t);
      if |parts| >= 2 && NameMatches(parts[|parts| - 1], filename) then Some(parts[0]) else None
  }

  /** The line-entry reading of a manifest line for `filename`. */
  function EntryFor(filename: string): string -> Option<string>
  {
    line => LineEntry(line, filename)
  }

  /** The first present result of `entry` over the lines, front to back. */
  function FirstSome(lines: seq<string>, entry: string -> Option<string>): Option<string>
  {
    if |lines| == 0 then None
    else if entry(lines[0]).Some? then entry(lines[0])
    else FirstSome(lines[1..], entry)
  }

  lemma {:induction false} FirstSomeIsFirst(lines: seq<string>, entry: string -> Option<string>)
    ensures FirstSome(lines, entry).None? <==> forall i | 0 <= i < |lines| :: entry(lines[i]).None?
    ensures FirstSome(lines, entry).Some? ==>
      exists i | 0 <= i < |lines| :: entry(lines[i]) == FirstSome(lines, entry)
        && forall j | 0 <= j < i :: entry(lines[j]).None?
  {
    if |lines| > 0 && entry(lines[0]).None? {
      var rest := lines[1..];
      FirstSomeIsFirst(rest, entry);
      assert forall i | 1 <= i < |lines| :: lines[i] == rest[i - 1];
      if FirstSome(rest, entry).Some? {
        var i :| 0 <= i < |rest| && entry(rest[i]) == FirstSome(rest, entry)
          && forall j | 0 <= j < i :: entry(rest[j]).None?;
        assert entry(lines[i + 1]) == FirstSome(lines, entry);
        assert forall j | 0 <= j < i + 1 :: entry(lines[j]).None? by {
          forall j | 0 <= j < i + 1 ensures entry(lines[j]).None? {
            if j > 0 { assert lines[j] == rest[j - 1]; }
          }
        }
      }
    }
  }

  /** The digest of the first line that is an entry for `filename`, or "". */
  function ManifestLookup(lines: seq<string>, filename: string): string
  {
    match FirstSome(lines, EntryFor(filename))
    case Some(h) => h
    case None => ""
  }

  /** The lookup is "" exactly when no line is an entry for the file, and
      otherwise the digest of the first line that is. */
  lemma ManifestLookupFirstEntry(lines: seq<string>, filename: string)
    ensures ManifestLookup(lines, filename) == "" <==> forall i | 0 <= i < |lines| :: LineEntry(lines[i], filename).None?
    ensures ManifestLookup(lines, filename) != "" ==>
      exists i | 0 <= i < |lines| :: LineEntry(lines[i], filename) == Some(ManifestLookup(lines, filename))
        && forall j | 0 <= j < i :: LineEntry(lines[j], filename).None?
  {
    var entry := EntryFor(filename);
    FirstSomeIsFirst(lines, entry);
    assert forall l :: entry(l) == LineEntry(l, filename);
  }

  /** parseChecksum: scans the lines of the manifest and returns at the first
      entry for the file; the reading of one line is LineEntry. */
  method ParseChecksum(checksumContent: string, filename: string) returns (hash: string)
    ensures hash == ManifestLookup(Split(checksumContent, '\n'), filename)
  {
    var lines := Split(checksumContent, '\n');
    ghost var entry := EntryFor(filename);
    var i := 0;
    while i < |lines|
      invariant 0 <= i <= |lines|
      invariant FirstSome(lines, entry) == FirstSome(lines[i..], entry)
    {
      assert lines[i..][1..] == lines[i + 1..];
      var found := LineEntry(lines[i], filename);
      if found.Some? {
        return found.value;
      }
      i := i + 1;
    }
    return "";
  }

  predicate AllSpace(s: string)
  {
    forall i | 0 <= i < |s| :: IsSpace(s[i])
  }

  /** The separator between digest and name in a manifest line: spaces and tabs. */
  predicate Gap(sp: string)
  {
    sp != [] && forall i | 0 <= i < |sp| :: sp[i] == ' ' || sp[i] == '\t'
  }

  lemma {:induction false} TokenLengthOfToken(w: string, rest: string)
    requires IsToken(w) && (rest == [] || IsSpace(rest[0]))
    ensures TokenLength(w + rest) == |w|
  {
    if |w| > 1 {
      assert (w + rest)[1..] == w[1..] + rest;
      TokenLengthOfToken(w[1..], rest);
    } else {
      assert (w + rest)[1..] == rest;
    }
  }

  lemma {:induction false} TrimLeftSpaces(sp: string, w: string)
    requires AllSpace(sp) && (w == [] || !IsSpace(w[0]))
    ensures TrimLeftSpace(sp + w) == w
  {
    if |sp| > 0 {
      assert (sp + w)[1..] == sp[1..] + w;
      TrimLeftSpaces(sp[1..], w);
    } else {
      assert sp + w == w;
    }
  }

  /** A token followed by white space or nothing is the first field. */
  lemma FieldsCons(h: string, rest: string)
    requires IsToken(h) && (rest == [] || IsSpace(rest[0]))
    ensures Fields(h + rest) == [h] + Fields(rest)
  {
    var s := h + rest;
    assert s[0] == h[0];
    assert TrimLeftSpace(s) == s;
    TokenLengthOfToken(h, rest);
    assert s[..|h|] == h;
    assert s[|h|..] == rest;
  }

  /** Leading white space does not change the fields. */
  lemma FieldsAfterSpace(sp: string, w: string)
    requires AllSpace(sp) && (w == [] || !IsSpace(w[0]))
    ensures Fields(sp + w) == Fields(w)
  {
    TrimLeftSpaces(sp, w);
  }

  /** A token followed by white space and a further token splits into exactly
      those two fields, however long the run of white space. */
  lemma FieldsOfPair(h: string, sp: string, name: string)
    requires IsToken(h) && IsToken(name) && sp != [] && AllSpace(sp)
    ensures Fields(h + sp + name) == [h, name]
  {
    assert h + sp + name == h + (sp + name);
    FieldsCons(h, sp + name);
    FieldsAfterSpace(sp, name);
    FieldsCons(name, []);
    assert name + [] == name;
    assert Fields([]) == [];
  }

  /** A line that starts and ends with non-space characters is its own trim. */
  lemma TrimSpaceOfTrimmed(line: string)
    requires line != [] && !IsSpace(line[0]) && !IsSpace(line[|line| - 1])
    ensures TrimSpace(line) == line
  {
    assert TrimLeftSpace(line) == line;
  }

  /** A line without a newline, terminated by one, splits into the line and
      an empty remainder. */
  lemma SplitTerminatedLine(line: string)
    requires '\n' !in line
    ensures Split(line + "\n", '\n') == [line, ""]
  {
    var m := line + "\n";
    var i := IndexOf(m, '\n');
    assert m[..|line|] == line;
    assert m[|line| + 1..] == [];
  }

  lemma EntryLineHasNoNewline(h: string, sp: string, filename: string)
    requires IsToken(h) && IsToken(filename) && Gap(sp)
    ensures '\n' !in h + sp + filename
  {
    var line := h + sp + filename;
    forall i | 0 <= i < |line| ensures line[i] != '\n' {
      if i < |h| { assert line[i] == h[i]; }
      else if i < |h| + |sp| { assert line[i] == sp[i - |h|]; }
      else { assert line[i] == filename[i - |h| - |sp|]; }
    }
  }

  /** Round trip: a manifest line "digest, white space, file name" is read
      back as the digest for that file. */
  lemma ManifestRoundTrip(h: string, sp: string, filename: string)
    requires IsToken(h) && IsToken(filename) && Gap(sp)
    ensures ManifestLookup(Split(h + sp + filename + "\n", '\n'), filename) == h
  {
    var line := h + sp + filename;
    assert AllSpace(sp);
    FieldsOfPair(h, sp, filename);
    assert line[0] == h[0];
    assert line[|line| - 1] == filename[|filename| - 1];
    TrimSpaceOfTrimmed(line);
    assert LineEntry(line, filename) == Some(h);
    EntryLineHasNoNewline(h, sp, filename);
    SplitTerminatedLine(line);
    assert EntryFor(filename)(line) == Some(h);
  }

  // ---------------------------------------------------------------------
  // Specification of one Apply call, as functions of the environment

  /** Every piece until io.Copy stops: with failing writes it stops after
      the first non-empty piece, whose progress event was already emitted. */
  function Copied(chunks: seq<seq<byte>>, writeFails: bool): seq<seq<byte>>
  {
    if writeFails && FirstNonEmpty(chunks) < |chunks| then chunks[..FirstNonEmpty(chunks) + 1] else chunks
  }

  function FirstNonEmpty(chunks: seq<seq<byte>>): (i: nat)
    ensures i <= |chunks|
    ensures forall j | 0 <= j < i :: chunks[j] == []
    ensures i < |chunks| ==> chunks[i] != []
  {
    if |chunks| == 0 || chunks[0] != [] then 0
    else 1 + FirstNonEmpty(chunks[1..])
  }

  /** The download reaches the streaming loop. */
  predicate Streams(files: map<string, File>, faults: set<FsOp>, tempName: string, reply: DownloadReply)
  {
    CreateTempOp !in faults && tempName !in files
    && reply.DownloadReply? && reply.status == 200 && CreateOp !in faults
  }

  /** How download ends: None for a complete, executable temporary file. */
  function DownloadOutcome(files: map<string, File>, faults: set<FsOp>, tempName: string, reply: DownloadReply)
    : Option<UpdateError>
  {
    if CreateTempOp in faults || tempName in files then Some(CreateTempFailed)
    else if reply.DownloadUnreachable? then Some(DownloadRequestFailed)
    else if reply.status != 200 then Some(DownloadStatus(reply.status))
    else if CreateOp in faults then Some(CreateOutputFailed)
    else if reply.interrupted || (WriteOp in faults && FirstNonEmpty(reply.chunks) < |reply.chunks|) then Some(WriteFailed)
    else if ChmodOp in faults then Some(ChmodFailed)
    else None
  }

  /** The events download emits: the initial downloading event, then one per
      non-empty piece read once streaming has started. */
  function DownloadTrace(files: map<string, File>, faults: set<FsOp>, tempName: string, reply: DownloadReply)
    : seq<UpdateProgress>
  {
    [StageEvent(Downloading)]
    + (if Streams(files, faults, tempName, reply)
       then ProgressEvents(Copied(reply.chunks, WriteOp in faults), reply.contentLength)
       else [])
  }

  /** How verifyChecksum ends on a downloaded file. Only a found manifest
      entry can fail it: by a file that cannot be hashed or by a mismatch. */
  function ChecksumOutcome(config: UpdaterConfig, reply: ChecksumReply, faults: set<FsOp>,
                           file: Option<File>, sha256: seq<byte> -> string): Option<UpdateError>
  {
    if config.checksumURL == "" then None
    else match reply
      case ChecksumUnreachable => None
      case ChecksumReply(status, body) =>
        if status != 200 || body.None? then None
        else
          var expected := ManifestLookup(Split(body.value, '\n'), Base(config.targetPath));
          if expected == "" then None
          else if OpenForHashOp in faults || file.None? then Some(OpenForHashFailed)
          else if HashOp in faults then Some(HashFailed)
          else if sha256(file.value.content) != expected then Some(ChecksumMismatch(expected, sha256(file.value.content)))
          else None
  }

  /** How the replacement library ends on the staged files. */
  function ReplaceOutcome(files: map<string, File>, faults: set<FsOp>, source: string, target: string)
    : Option<UpdateError>
  {
    if OpenBinaryOp in faults || source !in files then Some(OpenBinaryFailed)
    else if SelfUpdateOp in faults || target !in files then Some(SelfUpdateFailed)
    else None
  }

  function ApplyOutcome(config: UpdaterConfig, files: map<string, File>, faults: set<FsOp>,
                        tempName: string, net: Network): Option<ApplyError>
  {
    if config.downloadURL == "" then Some(ConfigError(MissingDownloadURL))
    else if config.targetPath == "" then Some(ConfigError(MissingTargetPath))
    else
      var reply := BinaryReply(net, config.downloadURL);
      var dl := DownloadOutcome(files, faults, tempName, reply);
      if dl.Some? then Some(DownloadFailed(dl.value))
      else InstallOutcome(config, files[tempName := File(Concat(reply.chunks), true)], faults, tempName, net)
  }

  /** How Apply ends once the download is staged at `tempName`: the optional
      verification, then the replacement. */
  function InstallOutcome(config: UpdaterConfig, staged: map<string, File>, faults: set<FsOp>,
                          tempName: string, net: Network): Option<ApplyError>
  {
    var ck := if config.checksumURL != "" then
      ChecksumOutcome(config, ManifestReply(net, config.checksumURL), faults,
                      if tempName in staged then Some(staged[tempName]) else None, net.sha256)
    else None;
    if ck.Some? then Some(ChecksumFailed(ck.value))
    else
      var rp := ReplaceOutcome(staged, faults, tempName, config.targetPath);
      if rp.Some? then Some(ReplaceFailed(rp.value)) else None
  }

  function VerifiedEvent(config: UpdaterConfig): seq<UpdateProgress>
  {
    if config.checksumURL != "" then [StageEvent(Verifying)] else []
  }

  function ApplyTrace(config: UpdaterConfig, files: map<string, File>, faults: set<FsOp>,
                      tempName: string, net: Network): seq<UpdateProgress>
  {
    if config.downloadURL == "" || config.targetPath == "" then []
    else
      var reply := BinaryReply(net, config.downloadURL);
      var dl := DownloadTrace(files, faults, tempName, reply);
      match DownloadOutcome(files, faults, tempName, reply)
      case Some(e) => dl + [FailedEvent(e)]
      case None => dl + InstallTrace(config, files[tempName := File(Concat(reply.chunks), true)], faults, tempName, net)
  }

  /** The events after a staged download. */
  function InstallTrace(config: UpdaterConfig, staged: map<string, File>, faults: set<FsOp>,
                        tempName: string, net: Network): seq<UpdateProgress>
  {
    match InstallOutcome(config, staged, faults, tempName, net)
    case None => VerifiedEvent(config) + [StageEvent(Replacing), StageEvent(Complete)]
    case Some(ChecksumFailed(e)) => [FailedEvent(e)]
    case Some(ReplaceFailed(e)) => VerifiedEvent(config) + [StageEvent(Replacing), FailedEvent(e)]
    case Some(_) => []
  }

  /** Adding a fresh file and removing it again restores the file map. */
  lemma RemoveStaged(files: map<string, File>, path: string, f: File)
    requires path !in files
    ensures files[path := f] - {path} == files
  {
    assert (files[path := f] - {path}).Keys == files.Keys;
  }

  /** The files after a successful Apply: the target holds the downloaded
      bytes and the temporary file is gone. */
  function Installed(files: map<string, File>, tempName: string, target: string, content: seq<byte>)
    : map<string, File>
  {
    files[tempName := File(content, true)][target := File(content, true)] - {tempName}
  }

  // ---------------------------------------------------------------------
  // Properties of one Apply call

  predicate AllDownloading(t: seq<UpdateProgress>)
  {
    forall k | 0 <= k < |t| :: t[k].stage == Downloading && t[k].error.None?
  }

  lemma DownloadTraceDownloading(files: map<string, File>, faults: set<FsOp>, tempName: string, reply: DownloadReply)
    ensures var t := DownloadTrace(files, faults, tempName, reply);
      t != [] && AllDownloading(t)
  {
    if Streams(files, faults, tempName, reply) {
      ProgressEventsBounded(Copied(reply.chunks, WriteOp in faults), reply.contentLength);
    }
  }

  /** A successful run: one or more downloading events, a verifying event
      exactly when a manifest URL is configured, then replacing, then complete. */
  predicate SuccessTrace(t: seq<UpdateProgress>, checked: bool)
  {
    var n := if checked then 3 else 2;
    |t| > n
    && AllDownloading(t[..|t| - n])
    && (checked ==> t[|t| - 3] == StageEvent(Verifying))
    && t[|t| - 2] == StageEvent(Replacing)
    && t[|t| - 1] == StageEvent(Complete)
  }

  /** A failed run: downloading events only, then the stage events `mid`,
      then one `failed` event carrying the cause. */
  predicate FailureTrace(t: seq<UpdateProgress>, mid: seq<UpdateProgress>, cause: UpdateError)
  {
    |t| >= |mid| + 2
    && AllDownloading(t[..|t| - |mid| - 1])
    && t[|t| - |mid| - 1..|t| - 1] == mid
    && t[|t| - 1] == FailedEvent(cause)
  }

  /** Downloading events followed by `mid` and a `failed` event form a failure trace. */
  lemma FailureAfterDownload(dl: seq<UpdateProgress>, mid: seq<UpdateProgress>, cause: UpdateError)
    requires dl != [] && AllDownloading(dl)
    ensures FailureTrace(dl + mid + [FailedEvent(cause)], mid, cause)
  {
    var t := dl + mid + [FailedEvent(cause)];
    assert t[..|t| - |mid| - 1] == dl;
    assert t[|t| - |mid| - 1..|t| - 1] == mid;
  }

  /** Downloading events followed by the closing stages form a success trace. */
  lemma SuccessAfterDownload(dl: seq<UpdateProgress>, checked: bool)
    requires dl != [] && AllDownloading(dl)
    ensures SuccessTrace(dl + (if checked then [StageEvent(Verifying)] else [])
                         + [StageEvent(Replacing), StageEvent(Complete)], checked)
  {
    var t := dl + (if checked then [StageEvent(Verifying)] else []) + [StageEvent(Replacing), StageEvent(Complete)];
    assert t[..|t| - (if checked then 3 else 2)] == dl;
  }

  /** After a staged download: success closes with the stage events, a failed
      verification emits only `failed`, a failed replacement emits `failed`
      after `replacing`; nothing else can go wrong. */
  lemma InstallTraceShape(config: UpdaterConfig, staged: map<string, File>, faults: set<FsOp>,
                          tempName: string, net: Network)
    ensures var t, r := InstallTrace(config, staged, faults, tempName, net), InstallOutcome(config, staged, faults, tempName, net);
      && (r.None? ==> t == VerifiedEvent(config) + [StageEvent(Replacing), StageEvent(Complete)])
      && (r.Some? ==> r.value.ChecksumFailed? || r.value.ReplaceFailed?)
      && (r.Some? && r.value.ChecksumFailed? ==> t == [FailedEvent(r.value.cause)])
      && (r.Some? && r.value.ReplaceFailed? ==>
            t == VerifiedEvent(config) + [StageEvent(Replacing), FailedEvent(r.value.cause)])
  {
  }

  /** Apply past the configuration checks: a failed download ends the trace
      with `failed`; a complete one continues with the installation. */
  lemma ApplyTraceSteps(config: UpdaterConfig, files: map<string, File>, faults: set<FsOp>,
                        tempName: string, net: Network)
    requires config.downloadURL != "" && config.targetPath != ""
    ensures var reply := BinaryReply(net, config.downloadURL);
      var dl, d := DownloadTrace(files, faults, tempName, reply), DownloadOutcome(files, faults, tempName, reply);
      var staged := files[tempName := File(if reply.DownloadReply? then Concat(reply.chunks) else [], true)];
      && (d.Some? ==> ApplyOutcome(config, files, faults, tempName, net) == Some(DownloadFailed(d.value))
                      && ApplyTrace(config, files, faults, tempName, net) == dl + [FailedEvent(d.value)])
      && (d.None? ==> ApplyOutcome(config, files, faults, tempName, net) == InstallOutcome(config, staged, faults, tempName, net)
                      && ApplyTrace(config, files, faults, tempName, net) == dl + InstallTrace(config, staged, faults, tempName, net))
  {
  }

  /** The shape of a trace assembled from a download trace `dl` and the
      installation's trace `it`, given how each step ended. */
  lemma AssembledTraceShape(dl: seq<UpdateProgress>, d: Option<UpdateError>, it: seq<UpdateProgress>,
                            io: Option<ApplyError>, verified: seq<UpdateProgress>,
                            t: seq<UpdateProgress>, r: Option<ApplyError>)
    requires dl != [] && AllDownloading(dl)
    requires verified == [] || verified == [StageEvent(Verifying)]
    requires d.Some? ==> r == Some(DownloadFailed(d.value)) && t == dl + [FailedEvent(d.value)]
    requires d.None? ==> r == io && t == dl + it
    requires io.None? ==> it == verified + [StageEvent(Replacing), StageEvent(Complete)]
    requires io.Some? ==> io.value.ChecksumFailed? || io.value.ReplaceFailed?
    requires io.Some? && io.value.ChecksumFailed? ==> it == [FailedEvent(io.value.cause)]
    requires io.Some? && io.value.ReplaceFailed? ==> it == verified + [StageEvent(Replacing), FailedEvent(io.value.cause)]
    ensures r.Some? ==> r.value.DownloadFailed? || r.value.ChecksumFailed? || r.value.ReplaceFailed?
    ensures r.None? ==> SuccessTrace(t, verified != [])
    ensures r.Some? && (r.value.DownloadFailed? || r.value.ChecksumFailed?) ==> FailureTrace(t, [], r.value.cause)
    ensures r.Some? && r.value.ReplaceFailed? ==> FailureTrace(t, verified + [StageEvent(Replacing)], r.value.cause)
  {
    if r.None? {
      assert t == dl + verified + [StageEvent(Replacing), StageEvent(Complete)];
      SuccessAfterDownload(dl, verified != []);
    } else if r.value.ReplaceFailed? {
      assert t == dl + (verified + [StageEvent(Replacing)]) + [FailedEvent(r.value.cause)];
      FailureAfterDownload(dl, verified + [StageEvent(Replacing)], r.value.cause);
    } else {
      assert t == dl + [] + [FailedEvent(r.value.cause)];
      FailureAfterDownload(dl, [], r.value.cause);
    }
  }

  /** The stage trace of every Apply: nothing for a configuration error; the
      success pipeline when it succeeds; after a failed download or a failed
      verification, the downloading events and then `failed`; after a failed
      replacement, the downloading events, `verifying` when a manifest URL is
      configured, `replacing` and then `failed`. Every `failed` event carries
      the error Apply returns. */
  lemma ApplyTraceShape(config: UpdaterConfig, files: map<string, File>, faults: set<FsOp>,
                        tempName: string, net: Network)
    ensures var t, r := ApplyTrace(config, files, faults, tempName, net), ApplyOutcome(config, files, faults, tempName, net);
      && (r.Some? && r.value.ConfigError? <==> t == [])
      && (r.None? ==> SuccessTrace(t, config.checksumURL != ""))
      && (r.Some? && (r.value.DownloadFailed? || r.value.ChecksumFailed?) ==> FailureTrace(t, [], r.value.cause))
      && (r.Some? && r.value.ReplaceFailed? ==>
            FailureTrace(t, VerifiedEvent(config) + [StageEvent(Replacing)], r.value.cause))
  {
    if config.downloadURL != "" && config.targetPath != "" {
      var reply := BinaryReply(net, config.downloadURL);
      var dl := DownloadTrace(files, faults, tempName, reply);
      var staged := files[tempName := File(if reply.DownloadReply? then Concat(reply.chunks) else [], true)];
      DownloadTraceDownloading(files, faults, tempName, reply);
      ApplyTraceSteps(config, files, faults, tempName, net);
      InstallTraceShape(config, staged, faults, tempName, net);
      AssembledTraceShape(dl, DownloadOutcome(files, faults, tempName, reply),
                          InstallTrace(config, staged, faults, tempName, net),
                          InstallOutcome(config, staged, faults, tempName, net), VerifiedEvent(config),
                          ApplyTrace(config, files, faults, tempName, net),
                          ApplyOutcome(config, files, faults, tempName, net));
    }
  }

  /** The target is replaced only after a complete download and, when a
      manifest URL is configured, a verification that returned no error. */
  lemma ReplaceOnlyAfterVerification(config: UpdaterConfig, files: map<string, File>, faults: set<FsOp>,
                                     tempName: string, net: Network)
    requires var r := ApplyOutcome(config, files, faults, tempName, net);
      r.None? || r.value.ReplaceFailed?
    ensures config.downloadURL != "" && config.targetPath != ""
    ensures DownloadOutcome(files, faults, tempName, BinaryReply(net, config.downloadURL)).None?
    ensures config.checksumURL != "" ==>
      ChecksumOutcome(config, ManifestReply(net, config.checksumURL), faults,
                      Some(File(Concat(BinaryReply(net, config.downloadURL).chunks), true)), net.sha256).None?
  {
  }

  /** The soft-fail policy: nothing short of a found manifest entry can fail
      verification, and a mismatch is reported exactly when a found entry
      differs from the digest of a readable file. */
  lemma ChecksumSoftFail(config: UpdaterConfig, reply: ChecksumReply, faults: set<FsOp>,
                         file: Option<File>, sha256: seq<byte> -> string)
    ensures var r := ChecksumOutcome(config, reply, faults, file, sha256);
      (config.checksumURL == "" || reply.ChecksumUnreachable? || reply.status != 200 || reply.body.None?
       || ManifestLookup(Split(reply.body.value, '\n'), Base(config.targetPath)) == "") ==> r.None?
    ensures var r := ChecksumOutcome(config, reply, faults, file, sha256);
      (r.Some? && r.value.ChecksumMismatch?) <==>
        (config.checksumURL != "" && reply.ChecksumReply? && reply.status == 200 && reply.body.Some?
         && OpenForHashOp !in faults && HashOp !in faults && file.Some?
         && var expected := ManifestLookup(Split(reply.body.value, '\n'), Base(config.targetPath));
            expected != "" && sha256(file.value.content) != expected)
  {
  }

  /** Verification against a manifest line holding the file's true digest passes. */
  lemma ChecksumAcceptsListedDigest(config: UpdaterConfig, sp: string, faults: set<FsOp>,
                                    content: seq<byte>, sha256: seq<byte> -> string)
    requires config.checksumURL != ""
    requires IsToken(sha256(content)) && IsToken(Base(config.targetPath)) && Gap(sp)
    requires OpenForHashOp !in faults && HashOp !in faults
    ensures var reply := ChecksumReply(200, Some(sha256(content) + sp + Base(config.targetPath) + "\n"));
      ChecksumOutcome(config, reply, faults, Some(File(content, true)), sha256).None?
  {
    ManifestRoundTrip(sha256(content), sp, Base(config.targetPath));
  }

  /** Verification against that line of a file whose digest differs reports
      the mismatch, with the listed and the actual digest. */
  lemma ChecksumRejectsOtherDigest(config: UpdaterConfig, sp: string, faults: set<FsOp>,
                                   content: seq<byte>, other: seq<byte>, sha256: seq<byte> -> string)
    requires config.checksumURL != ""
    requires IsToken(sha256(content)) && IsToken(Base(config.targetPath)) && Gap(sp)
    requires OpenForHashOp !in faults && HashOp !in faults
    requires sha256(other) != sha256(content)
    ensures var reply := ChecksumReply(200, Some(sha256(content) + sp + Base(config.targetPath) + "\n"));
      ChecksumOutcome(config, reply, faults, Some(File(other, true)), sha256)
      == Some(ChecksumMismatch(sha256(content), sha256(other)))
  {
    ManifestRoundTrip(sha256(content), sp, Base(config.targetPath));
  }

  /** A complete download of a body of known size reports percents in
      [0,100] throughout and ends with a 100 percent event for all its bytes. */
  lemma DownloadCompletesAt100(files: map<string, File>, faults: set<FsOp>, tempName: string, reply: DownloadReply)
    requires DownloadOutcome(files, faults, tempName, reply).None?
    requires reply.contentLength > 0 && Sum(reply.chunks) == reply.contentLength
    ensures var t := DownloadTrace(files, faults, tempName, reply);
      && t[|t| - 1].percent == 100
      && t[|t| - 1].bytesDone == reply.contentLength
      && forall k | 0 <= k < |t| :: 0 <= t[k].percent <= 100 && t[k].bytesDone <= reply.contentLength
  {
    var chunks := reply.chunks;
    assert Copied(chunks, WriteOp in faults) == chunks;
    ProgressPercentBounds(chunks, reply.contentLength);
    ProgressEventsBounded(chunks, reply.contentLength);
  }

  /** Installing into an existing target changes that file and nothing else. */
  lemma InstalledChangesOnlyTarget(files: map<string, File>, tempName: string, target: string, content: seq<byte>)
    requires tempName !in files && target != tempName
    ensures Installed(files, tempName, target, content) == files[target := File(content, true)]
  {
    var m := Installed(files, tempName, target, content);
    assert m.Keys == files[target := File(content, true)].Keys;
  }

  /** With no faults, a fresh temporary name and a 200 reply that is not
      interrupted, download leaves a complete, executable temporary file. */
  lemma DownloadSucceeds(files: map<string, File>, tempName: string, reply: DownloadReply)
    requires tempName !in files
    requires reply.DownloadReply? && reply.status == 200 && !reply.interrupted
    ensures DownloadOutcome(files, {}, tempName, reply).None?
  {
  }

  /** With no faults, a manifest entry for the target that lists the staged
      file's digest and a target that exists, installation succeeds. */
  lemma InstallSucceeds(config: UpdaterConfig, staged: map<string, File>, tempName: string,
                        net: Network, manifest: string)
    requires config.checksumURL != "" && config.targetPath in staged && tempName in staged
    requires ManifestReply(net, config.checksumURL) == ChecksumReply(200, Some(manifest))
    requires ManifestLookup(Split(manifest, '\n'), Base(config.targetPath)) == net.sha256(staged[tempName].content)
    ensures InstallOutcome(config, staged, {}, tempName, net).None?
  {
    assert ChecksumOutcome(config, ManifestReply(net, config.checksumURL), {}, Some(staged[tempName]), net.sha256).None?;
    assert ReplaceOutcome(staged, {}, tempName, config.targetPath).None?;
  }

  /** The end-to-end scenario: with every step succeeding and a manifest whose
      entry for the target lists the true digest of the served bytes (as the
      line of ManifestRoundTrip does), Apply succeeds, and the target then holds
      exactly the served bytes while no other file changed. */
  lemma EndToEndApply(config: UpdaterConfig, files: map<string, File>, tempName: string, net: Network, manifest: string)
    requires config.downloadURL != "" && config.checksumURL != "" && config.targetPath != ""
    requires config.targetPath in files && tempName !in files
    requires var reply := BinaryReply(net, config.downloadURL);
      reply.DownloadReply? && reply.status == 200 && !reply.interrupted
    requires ManifestReply(net, config.checksumURL) == ChecksumReply(200, Some(manifest))
    requires ManifestLookup(Split(manifest, '\n'), Base(config.targetPath))
             == net.sha256(Concat(BinaryReply(net, config.downloadURL).chunks))
    ensures ApplyOutcome(config, files, {}, tempName, net).None?
    ensures var content := Concat(BinaryReply(net, config.downloadURL).chunks);
      Installed(files, tempName, config.targetPath, content) == files[config.targetPath := File(content, true)]
  {
    var reply := BinaryReply(net, config.downloadURL);
    var content := Concat(reply.chunks);
    DownloadSucceeds(files, tempName, reply);
    var staged := files[tempName := File(content, true)];
    InstallSucceeds(config, staged, tempName, net, manifest);
    InstalledChangesOnlyTarget(files, tempName, config.targetPath, content);
  }

  // ---------------------------------------------------------------------
  // The environment's file system

  class FileSystem {
    var files: map<string, File>
    /** The name the operating system hands out for the next temporary file. */
    const tempName: string
    const faults: set<FsOp>

    constructor (files: map<string, File>, tempName: string, faults: set<FsOp>)
      ensures this.files == files && this.tempName == tempName && this.faults == faults
    {
      this.files := files;
      this.tempName := tempName;
      this.faults := faults;
    }

    /** os.CreateTemp: a new empty, non-executable file; a name already taken fails. */
    method CreateTemp() returns (path: Option<string>)
      modifies this
      ensures path == if CreateTempOp in faults || tempName in old(files) then None else Some(tempName)
      ensures files == if path.Some? then old(files)[tempName := File([], false)] else old(files)
    {
      if CreateTempOp in faults || tempName in files {
        return None;
      }
      files := files[tempName := File([], false)];
      return Some(tempName);
    }

    /** os.Create: truncates the file, keeping its mode. */
    method Create(path: string) returns (ok: bool)
      modifies this
      ensures ok == (CreateOp !in faults)
      ensures files == if ok then old(files)[path := File([], path in old(files) && old(files)[path].executable)]
                       else old(files)
    {
      ok := CreateOp !in faults;
      if ok {
        files := files[path := File([], path in files && files[path].executable)];
      }
    }

    method Append(path: string, data: seq<byte>) returns (ok: bool)
      modifies this
      ensures ok == (WriteOp !in faults && path in old(files))
      ensures files == if ok then old(files)[path := old(files)[path].(content := old(files)[path].content + data)]
                       else old(files)
    {
      ok := WriteOp !in faults && path in files;
      if ok {
        files := files[path := files[path].(content := files[path].content + data)];
      }
    }

    /** os.Chmod(path, 0755). */
    method Chmod(path: string) returns (ok: bool)
      modifies this
      ensures ok == (ChmodOp !in faults && path in old(files))
      ensures files == if ok then old(files)[path := old(files)[path].(executable := true)] else old(files)
    {
      ok := ChmodOp !in faults && path in files;
      if ok {
        files := files[path := files[path].(executable := true)];
      }
    }

    method Remove(path: string)
      modifies this
      ensures files == old(files) - {path}
    {
      files := files - {path};
    }

    /** Opening a file and reading it through the hash. */
    method ReadForHash(path: string) returns (r: Result<seq<byte>, UpdateError>)
      ensures r == if OpenForHashOp in faults || path !in files then Err(OpenForHashFailed)
                   else if HashOp in faults then Err(HashFailed)
                   else Ok(files[path].content)
    {
      if OpenForHashOp in faults || path !in files {
        return Err(OpenForHashFailed);
      }
      if HashOp in faults {
        return Err(HashFailed);
      }
      return Ok(files[path].content);
    }

    /** The replacement library: on success the target holds the source's
      bytes with mode 0755; on failure nothing changes. */
    method SelfUpdate(source: string, target: string) returns (err: Option<UpdateError>)
      modifies this
      ensures err == ReplaceOutcome(old(files), faults, source, target)
      ensures files == if err.None? then old(files)[target := File(old(files)[source].content, true)] else old(files)
    {
      err := ReplaceOutcome(files, faults, source, target);
      if err.None? {
        files := files[target := File(files[source].content, true)];
      }
    }
  }

  // ---------------------------------------------------------------------
  // The updater and its counting reader

  class Updater {
    const config: UpdaterConfig
    /** The installed callback. It only records which one is installed: every
        call is modelled through `events`, whatever callback is installed. */
    var progress: Callback
    /** Every value passed to the progress callback, in order. */
    var events: seq<UpdateProgress>

    /** NewUpdater: the given configuration and the no-op callback. */
    constructor (config: UpdaterConfig)
      ensures this.config == config && progress == NoOp && events == []
    {
      this.config := config;
      progress := NoOp;
      events := [];
    }

    method SetProgressCallback(cb: Callback)
      modifies this`progress
      ensures progress == cb
    {
      progress := cb;
    }

    method Emit(p: UpdateProgress)
      modifies this`events
      ensures events == old(events) + [p]
    {
      events := events + [p];
    }

    /** download: a temporary file filled from the binary server, made
      executable; every failure after the file exists removes it again. */
    method Download(fs: FileSystem, net: Network) returns (r: Result<string, UpdateError>)
      modifies this`events, fs
      ensures var reply := BinaryReply(net, config.downloadURL);
        r == match DownloadOutcome(old(fs.files), fs.faults, fs.tempName, reply)
             case None => Ok(fs.tempName)
             case Some(e) => Err(e)
      ensures events == old(events) + DownloadTrace(old(fs.files), fs.faults, fs.tempName, BinaryReply(net, config.downloadURL))
      ensures r.Err? ==> fs.files == old(fs.files)
      ensures r.Ok? ==> fs.files == old(fs.files)[fs.tempName := File(Concat(BinaryReply(net, config.downloadURL).chunks), true)]
    {
      Emit(StageEvent(Downloading));
      ghost var start := fs.files;
      ghost var trace := events;
      var created := fs.CreateTemp();
      if created.None? {
        return Err(CreateTempFailed);
      }
      var tmpPath := created.value;
      var reply := BinaryReply(net, config.downloadURL);
      if reply.DownloadUnreachable? {
        RemoveStaged(start, tmpPath, fs.files[tmpPath]);
        fs.Remove(tmpPath);
        return Err(DownloadRequestFailed);
      }
      if reply.status != 200 {
        RemoveStaged(start, tmpPath, fs.files[tmpPath]);
        fs.Remove(tmpPath);
        return Err(DownloadStatus(reply.status));
      }
      var ok := fs.Create(tmpPath);
      if !ok {
        RemoveStaged(start, tmpPath, fs.files[tmpPath]);
        fs.Remove(tmpPath);
        return Err(CreateOutputFailed);
      }
      assert fs.files == start[tmpPath := File([], false)];
      ok := CopyWithProgress(fs, tmpPath, reply.contentLength, reply.chunks);
      assert events == trace + ProgressEvents(Copied(reply.chunks, WriteOp in fs.faults), reply.contentLength);
      assert fs.files == start[tmpPath := fs.files[tmpPath]];
      if !ok || reply.interrupted {
        RemoveStaged(start, tmpPath, fs.files[tmpPath]);
        fs.Remove(tmpPath);
        return Err(WriteFailed);
      }
      assert fs.files[tmpPath] == File(Concat(reply.chunks), false) by {
        assert [] + Concat(reply.chunks) == Concat(reply.chunks);
      }
      ok := fs.Chmod(tmpPath);
      if !ok {
        RemoveStaged(start, tmpPath, fs.files[tmpPath]);
        fs.Remove(tmpPath);
        return Err(ChmodFailed);
      }
      return Ok(tmpPath);
    }

    /** io.Copy from a progress-counting reader over the body, read in the
      given pieces, into the file at `path`; a failing write stops it. */
    method CopyWithProgress(fs: FileSystem, path: string, total: int, chunks: seq<seq<byte>>) returns (ok: bool)
      requires path in fs.files
      modifies this`events, fs
      ensures ok == !(WriteOp in fs.faults && FirstNonEmpty(chunks) < |chunks|)
      ensures events == old(events) + ProgressEvents(Copied(chunks, WriteOp in fs.faults), total)
      ensures path in fs.files && fs.files == old(fs.files)[path := fs.files[path]]
      ensures ok ==> fs.files[path] == old(fs.files)[path].(content := old(fs.files)[path].content + Concat(chunks))
      ensures !ok ==> fs.files[path] == old(fs.files)[path]
    {
      ghost var start := fs.files;
      ghost var base := events;
      ghost var writeFails := WriteOp in fs.faults;
      var reader := new ProgressReader(this, total);
      var i := 0;
      ok := true;
      while i < |chunks| && ok
        invariant 0 <= i <= |chunks|
        invariant reader.owner == this && reader.total == total
        invariant reader.read == Sum(chunks[..i])
        invariant events == base + ProgressEvents(chunks[..i], total)
        invariant path in fs.files && fs.files == start[path := fs.files[path]]
        invariant ok ==> fs.files[path] == start[path].(content := start[path].content + Concat(chunks[..i]))
        invariant ok <==> !(writeFails && FirstNonEmpty(chunks) < i)
        invariant !ok ==> i == FirstNonEmpty(chunks) + 1
        invariant !ok ==> fs.files[path] == start[path]
      {
        assert chunks[..i + 1][..i] == chunks[..i];
        var n := reader.Read(chunks[i]);
        if n > 0 {
          ok := fs.Append(path, chunks[i]);
          if !ok {
            ConcatOfEmpty(chunks[..i]);
            assert start[path].content + [] == start[path].content;
          }
        }
        i := i + 1;
      }
      assert chunks[..i] == Copied(chunks, writeFails);
      if ok {
        assert chunks[..i] == chunks;
      }
    }

    /** verifyChecksum on the downloaded file. */
    method VerifyChecksum(fs: FileSystem, net: Network, filePath: string) returns (err: Option<UpdateError>)
      ensures err == ChecksumOutcome(config, ManifestReply(net, config.checksumURL), fs.faults,
                                     if filePath in fs.files then Some(fs.files[filePath]) else None, net.sha256)
    {
      if config.checksumURL == "" {
        return None;
      }
      var reply := ManifestReply(net, config.checksumURL);
      if reply.ChecksumUnreachable? {
        return None;
      }
      if reply.status != 200 {
        return None;
      }
      if reply.body.None? {
        return None;
      }
      var expectedHash := ParseChecksum(reply.body.value, Base(config.targetPath));
      if expectedHash == "" {
        return None;
      }
      var content := fs.ReadForHash(filePath);
      if content.Err? {
        return Some(content.error);
      }
      var actualHash := net.sha256(content.value);
      if actualHash != expectedHash {
        return Some(ChecksumMismatch(expectedHash, actualHash));
      }
      return None;
    }

    /** Apply: configuration check, download, then verification and replacement. */
    method Apply(fs: FileSystem, net: Network) returns (err: Option<ApplyError>)
      modifies this`events, fs
      ensures err == ApplyOutcome(config, old(fs.files), fs.faults, fs.tempName, net)
      ensures events == old(events) + ApplyTrace(config, old(fs.files), fs.faults, fs.tempName, net)
      ensures err.Some? ==> fs.files == old(fs.files)
      ensures err.None? ==>
        fs.files == Installed(old(fs.files), fs.tempName, config.targetPath, Concat(BinaryReply(net, config.downloadURL).chunks))
    {
      if config.downloadURL == "" {
        return Some(ConfigError(MissingDownloadURL));
      }
      if config.targetPath == "" {
        return Some(ConfigError(MissingTargetPath));
      }
      ghost var start := fs.files;
      ApplyTraceSteps(config, start, fs.faults, fs.tempName, net);
      var downloaded := Download(fs, net);
      if downloaded.Err? {
        Emit(FailedEvent(downloaded.error));
        return Some(DownloadFailed(downloaded.error));
      }
      ghost var reply := BinaryReply(net, config.downloadURL);
      assert fs.tempName !in start;
      RemoveStaged(start, fs.tempName, File(Concat(reply.chunks), true));
      err := VerifyAndReplace(fs, net, downloaded.value);
    }

    /** The steps of Apply after a staged download: verification when a
      manifest URL is configured, the replacement, and the removal of the
      temporary file on every path. */
    method VerifyAndReplace(fs: FileSystem, net: Network, tmpFile: string) returns (err: Option<ApplyError>)
      requires tmpFile in fs.files
      modifies this`events, fs
      ensures err == InstallOutcome(config, old(fs.files), fs.faults, tmpFile, net)
      ensures events == old(events) + InstallTrace(config, old(fs.files), fs.faults, tmpFile, net)
      ensures err.Some? ==> fs.files == old(fs.files) - {tmpFile}
      ensures err.None? ==>
        fs.files == old(fs.files)[config.targetPath := File(old(fs.files)[tmpFile].content, true)] - {tmpFile}
    {
      if config.checksumURL != "" {
        var checked := VerifyChecksum(fs, net, tmpFile);
        if checked.Some? {
          Emit(FailedEvent(checked.value));
          fs.Remove(tmpFile);
          return Some(ChecksumFailed(checked.value));
        }
        Emit(StageEvent(Verifying));
      }
      Emit(StageEvent(Replacing));
      var replaced := fs.SelfUpdate(tmpFile, config.targetPath);
      if replaced.Some? {
        Emit(FailedEvent(replaced.value));
        fs.Remove(tmpFile);
        return Some(ReplaceFailed(replaced.value));
      }
      Emit(StageEvent(Complete));
      fs.Remove(tmpFile);
      return None;
    }
  }

  /** progressReader: counts the bytes that pass through and reports the
      running count for every read that returned data. */
  class ProgressReader {
    const owner: Updater
    const total: int
    var read: int

    constructor (owner: Updater, total: int)
      ensures this.owner == owner && this.total == total && read == 0
    {
      this.owner := owner;
      this.total := total;
      read := 0;
    }

    /** One Read whose underlying reader returned `chunk`. */
    method Read(chunk: seq<byte>) returns (n: nat)
      modifies this, owner`events
      ensures n == |chunk|
      ensures read == old(read) + n
      ensures owner.events == old(owner.events) + (if n > 0 then [DownloadEvent(read, total)] else [])
    {
      n := |chunk|;
      if n > 0 {
        read := read + n;
        owner.Emit(DownloadEvent(read, total));
      }
    }
  }
}
