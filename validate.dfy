/** The result validator: it byte-compares, for each benchmark image size, the
    output files that the different builds produced (and the GPU build's file,
    when there is one) against the first of them. Files are byte strings, a
    file that cannot be opened is None, and the directory listing is given. */
module Validate {
  import opened Options
  import opened Bytes

  /** The size of the two read buffers. */
  const BufferSize := 4096

  /** A binary input stream: the read position and the end-of-file flag, which
      a read that finds fewer bytes than it asked for sets. */
  class InStream {
    const contents: seq<byte>
    var pos: nat
    var eof: bool
    /** The number of bytes the last read extracted. */
    var gcount: nat

    ghost predicate Valid()
      reads this
    {
      pos <= |contents| && (eof ==> pos == |contents|)
    }

    /** A stream positioned at the start of the file. */
    constructor (contents: seq<byte>)
      ensures this.contents == contents && pos == 0 && !eof && gcount == 0 && Valid()
    {
      this.contents := contents;
      pos, eof, gcount := 0, false, 0;
    }

    /** Reads up to n bytes into the start of buf. */
    method Read(buf: array<byte>, n: nat)
      requires Valid() && !eof && n <= buf.Length
      modifies this, buf
      ensures Valid()
      ensures gcount == (if old(pos) + n <= |contents| then n else |contents| - old(pos))
      ensures pos == old(pos) + gcount
      ensures eof == (old(pos) + n > |contents|)
      ensures buf[..gcount] == contents[old(pos)..pos]
      ensures buf[gcount..] == old(buf[..])[gcount..]
    {
      var k := if pos + n <= |contents| then n else |contents| - pos;
      var i := 0;
      while i < k
        modifies buf
        invariant 0 <= i <= k
        invariant buf[..i] == contents[pos..pos + i]
        invariant buf[k..] == old(buf[k..])
      {
        buf[i] := contents[pos + i];
        i := i + 1;
      }
      gcount := k;
      eof := pos + n > |contents|;
      pos := pos + k;
    }
  }

  /** Two files are identical when both open and hold the same bytes. */
  predicate Identical(a: Option<seq<byte>>, b: Option<seq<byte>>) {
    a.Some? && b.Some? && a.value == b.value
  }

  /** filesAreIdentical: fails on a file that does not open and on different
      sizes, then compares the files chunk by chunk until both reach the end. */
  method FilesAreIdentical(a: Option<seq<byte>>, b: Option<seq<byte>>) returns (same: bool)
    ensures same <==> a.Some? && b.Some? && a.value == b.value
  {
    if a.None? || b.None? {
      return false;
    }
    var sizeA, sizeB := |a.value|, |b.value|;
    if sizeA != sizeB {
      return false;
    }
    var fileA := new InStream(a.value);
    var fileB := new InStream(b.value);
    var bufferA := new byte[BufferSize](_ => 0);
    var bufferB := new byte[BufferSize](_ => 0);
    while !fileA.eof && !fileB.eof
      invariant fileA.Valid() && fileB.Valid()
      invariant fileA.contents == a.value && fileB.contents == b.value
      invariant fileA.pos == fileB.pos && fileA.eof == fileB.eof
      invariant a.value[..fileA.pos] == b.value[..fileB.pos]
      decreases |a.value| - fileA.pos + (if fileA.eof then 0 else 1)
    {
      ghost var start := fileA.pos;
      fileA.Read(bufferA, BufferSize);
      fileB.Read(bufferB, BufferSize);
      var bytesReadA, bytesReadB := fileA.gcount, fileB.gcount;
      if bytesReadA != bytesReadB || bufferA[..bytesReadA] != bufferB[..bytesReadA] {
        assert a.value[start..fileA.pos] != b.value[start..fileB.pos];
        return false;
      }
      assert a.value[..fileA.pos] == a.value[..start] + a.value[start..fileA.pos];
      assert b.value[..fileB.pos] == b.value[..start] + b.value[start..fileB.pos];
    }
    assert a.value == a.value[..fileA.pos] && b.value == b.value[..fileB.pos];
    return true;
  }

  lemma IdenticalSymmetric(a: Option<seq<byte>>, b: Option<seq<byte>>)
    ensures Identical(a, b) == Identical(b, a)
  {
  }

  lemma IdenticalReflexive(a: Option<seq<byte>>)
    ensures Identical(a, a) <==> a.Some?
  {
  }

  // ---------------------------------------------------------------------------
  // The per-size verdict

  /** The image sizes the benchmark produces outputs for. */
  const Sizes: seq<nat> := [1000, 10000, 100000, 1000000, 10000000]
  const DefaultOutputDir := "./output"

  /** A directory entry: its path and whether it is a regular file. */
  datatype Entry = Entry(path: string, isRegular: bool)

  function Digit(d: nat): char
    requires d < 10
  {
    "0123456789"[d]
  }

  /** std::to_string of a non-negative number. */
  function Decimal(n: nat): (s: string)
    ensures |s| >= 1
  {
    if n < 10 then [Digit(n)] else Decimal(n / 10) + [Digit(n % 10)]
  }

  /** The substring that marks an output file of a given size. */
  function Token(size: nat): string {
    "output_" + Decimal(size) + "_"
  }

  /** The GPU build's output file for a given size. */
  function GpuFile(size: nat): string {
    "./gp_output/output_" + Decimal(size) + ".bmp"
  }

  /** Whether t occurs in s (std::string::find does not return npos). */
  predicate Contains(s: string, t: string) {
    exists i :: 0 <= i <= |s| - |t| && OccursAt(s, t, i)
  }

  predicate OccursAt(s: string, t: string, i: int)
    requires 0 <= i <= |s| - |t|
  {
    s[i..i + |t|] == t
  }

  /** The paths of the regular files whose path contains the token, in listing order. */
  function Matching(entries: seq<Entry>, token: string): (r: seq<string>)
    ensures |r| <= |entries|
  {
    if entries == [] then []
    else
      var rest := Matching(entries[..|entries| - 1], token);
      var e := entries[|entries| - 1];
      if e.isRegular && Contains(e.path, token) then rest + [e.path] else rest
  }

  /** The files compared for one size: the matching files, then the GPU file
      when it exists; nothing at all when no file matches. */
  function Candidates(entries: seq<Entry>, size: nat, exists_: string -> bool): seq<string> {
    var found := Matching(entries, Token(size));
    if found == [] then []
    else if exists_(GpuFile(size)) then found + [GpuFile(size)]
    else found
  }

  /** The candidates after the reference that differ from it, in order. */
  function Differing(candidates: seq<string>, files: string -> Option<seq<byte>>, upTo: nat): (r: seq<string>)
    requires 1 <= upTo <= |candidates|
  {
    if upTo == 1 then []
    else
      var rest := Differing(candidates, files, upTo - 1);
      if Identical(files(candidates[0]), files(candidates[upTo - 1])) then rest
      else rest + [candidates[upTo - 1]]
  }

  /** The closing message for a size. */
  datatype Summary = AllValid | SingleFile | NoSummary

  datatype SizeReport =
    | NoFiles
    | Compared(candidates: seq<string>, differing: seq<string>, summary: Summary)

  function SummaryOf(allMatch: bool, count: nat): Summary {
    if allMatch && count > 1 then AllValid
    else if count == 1 then SingleFile
    else NoSummary
  }

  function SizeVerdict(entries: seq<Entry>, size: nat, exists_: string -> bool,
                       files: string -> Option<seq<byte>>): SizeReport
  {
    var candidates := Candidates(entries, size, exists_);
    if candidates == [] then NoFiles
    else
      var differing := Differing(candidates, files, |candidates|);
      Compared(candidates, differing, SummaryOf(differing == [], |candidates|))
  }

  /** One round of the size loop: collect the candidates, take the first as the
      reference and compare every later candidate with it. */
  method CheckSize(entries: seq<Entry>, size: nat, exists_: string -> bool,
                   files: string -> Option<seq<byte>>) returns (report: SizeReport)
    ensures report == SizeVerdict(entries, size, exists_, files)
  {
    var candidateFiles: seq<string> := [];
    var k := 0;
    var token := Token(size);
    while k < |entries|
      invariant 0 <= k <= |entries|
      invariant candidateFiles == Matching(entries[..k], token)
    {
      var entry := entries[k];
      assert entries[..k + 1][..k] == entries[..k];
      if entry.isRegular && Contains(entry.path, token) {
        candidateFiles := candidateFiles + [entry.path];
      }
      k := k + 1;
    }
    assert entries[..k] == entries;
    if candidateFiles == [] {
      return NoFiles;
    }
    var gpOutputFile := GpuFile(size);
    if exists_(gpOutputFile) {
      candidateFiles := candidateFiles + [gpOutputFile];
    }
    var referenceFile := candidateFiles[0];
    var allMatch := true;
    var differing: seq<string> := [];
    var i := 1;
    while i < |candidateFiles|
      invariant 1 <= i <= |candidateFiles|
      invariant differing == Differing(candidateFiles, files, i)
      invariant allMatch == (differing == [])
    {
      var same := FilesAreIdentical(files(referenceFile), files(candidateFiles[i]));
      if !same {
        allMatch := false;
        differing := differing + [candidateFiles[i]];
      }
      i := i + 1;
    }
    var summary := if allMatch && |candidateFiles| > 1 then AllValid
                   else if |candidateFiles| == 1 then SingleFile
                   else NoSummary;
    report := Compared(candidateFiles, differing, summary);
  }

  /** The whole validator: the output directory (first argument, "./output"
      without one) is scanned once per size. */
  method ValidateAll(args: seq<string>, listDir: string -> seq<Entry>, exists_: string -> bool,
                     files: string -> Option<seq<byte>>) returns (reports: seq<SizeReport>)
    ensures var dir := if |args| > 1 then args[1] else DefaultOutputDir;
      |reports| == |Sizes| &&
      forall j :: 0 <= j < |Sizes| ==> reports[j] == SizeVerdict(listDir(dir), Sizes[j], exists_, files)
  {
    var outputDir := DefaultOutputDir;
    if |args| > 1 {
      outputDir := args[1];
    }
    reports := [];
    var j := 0;
    while j < |Sizes|
      invariant 0 <= j <= |Sizes|
      invariant |reports| == j
      invariant forall m :: 0 <= m < j ==> reports[m] == SizeVerdict(listDir(outputDir), Sizes[m], exists_, files)
    {
      var report := CheckSize(listDir(outputDir), Sizes[j], exists_, files);
      reports := reports + [report];
      j := j + 1;
    }
  }
}

module ValidateLaws {
  import opened Options
  import opened Bytes
  import opened Validate

  /** A path is a matching file exactly when some regular entry with that path
      contains the token. */
  lemma {:induction false} MatchingMembers(entries: seq<Entry>, token: string, path: string)
    ensures path in Matching(entries, token) <==>
      exists k :: 0 <= k < |entries| && entries[k].path == path && entries[k].isRegular && Contains(path, token)
  {
    if entries != [] {
      var init := entries[..|entries| - 1];
      MatchingMembers(init, token, path);
      if path in Matching(entries, token) && path !in Matching(init, token) {
        var k := |entries| - 1;
        assert entries[k].path == path;
      }
      if path !in Matching(entries, token) {
        forall k | 0 <= k < |entries| && entries[k].path == path && entries[k].isRegular
          ensures !Contains(path, token)
        {
          if k < |entries| - 1 {
            assert init[k] == entries[k];
          }
        }
      } else if path in Matching(init, token) {
        var k :| 0 <= k < |init| && init[k].path == path && init[k].isRegular && Contains(path, token);
        assert entries[k] == init[k];
      }
    }
  }

  /** The candidates are the matching files in listing order, with the GPU file
      appended last when it exists; no matching file means no candidates. */
  lemma CandidatesShape(entries: seq<Entry>, size: nat, exists_: string -> bool)
    ensures Matching(entries, Token(size)) == [] ==> Candidates(entries, size, exists_) == []
    ensures Matching(entries, Token(size)) != [] ==>
      Candidates(entries, size, exists_)
        == Matching(entries, Token(size)) + (if exists_(GpuFile(size)) then [GpuFile(size)] else [])
  {
  }

  /** No candidates: the size is skipped and nothing is compared. */
  lemma NoCandidatesSkipped(entries: seq<Entry>, size: nat, exists_: string -> bool,
                            files: string -> Option<seq<byte>>)
    requires Matching(entries, Token(size)) == []
    ensures SizeVerdict(entries, size, exists_, files) == NoFiles
  {
  }

  /** A path is reported as differing exactly when it is one of the candidates
      after the reference and its file is not identical to the reference's; the
      report is empty exactly when every later candidate is identical. */
  lemma {:induction false} DifferingMembers(candidates: seq<string>, files: string -> Option<seq<byte>>, upTo: nat)
    requires 1 <= upTo <= |candidates|
    ensures |Differing(candidates, files, upTo)| <= upTo - 1
    ensures forall path :: path in Differing(candidates, files, upTo) <==>
      exists i :: 1 <= i < upTo && candidates[i] == path && !Identical(files(candidates[0]), files(path))
    ensures Differing(candidates, files, upTo) == [] <==>
      forall i :: 1 <= i < upTo ==> Identical(files(candidates[0]), files(candidates[i]))
  {
    if upTo > 1 {
      DifferingMembers(candidates, files, upTo - 1);
      var last := candidates[upTo - 1];
      if !Identical(files(candidates[0]), files(last)) {
        assert last in Differing(candidates, files, upTo);
      }
    }
  }

  /** The verdict: all match iff every candidate after the first is identical to
      the first; "all valid" is reported only with more than one candidate, and
      a lone candidate gets the single-file message. */
  lemma VerdictMeaning(entries: seq<Entry>, size: nat, exists_: string -> bool,
                       files: string -> Option<seq<byte>>)
    requires SizeVerdict(entries, size, exists_, files).Compared?
    ensures var r := SizeVerdict(entries, size, exists_, files);
      && |r.candidates| >= 1
      && (r.differing == [] <==>
           forall i :: 1 <= i < |r.candidates| ==> Identical(files(r.candidates[0]), files(r.candidates[i])))
      && (r.summary == AllValid <==> r.differing == [] && |r.candidates| > 1)
      && (r.summary == SingleFile <==> |r.candidates| == 1)
  {
    var r := SizeVerdict(entries, size, exists_, files);
    DifferingMembers(r.candidates, files, |r.candidates|);
  }
}
