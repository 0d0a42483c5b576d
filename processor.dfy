/**
 * `FileProcessor.read_file` and `FileProcessor.write_file`: the order of the
 * checks, the encoding fallback, and the two session logs the processor
 * appends to. The filesystem and the codecs are an oracle handed in by the
 * caller: the answers of `exists`, `is_file` and `os.access`, and what
 * opening and reading the file under each encoding does.
 */
module Processor {

  datatype Encoding = Utf8 | Utf16 | Latin1 | Cp1252

  /** The encodings `read_file` tries, in this order. */
  const Encodings: seq<Encoding> := [Utf8, Utf16, Latin1, Cp1252]

  /** The exception classes the handlers tell apart: PermissionError, other OSError, anything else. */
  datatype Fault = PermissionFault | OsFault | UnexpectedFault

  /** One read of the file under one encoding. */
  datatype Attempt =
    | Decoded(text: string)   // the decode succeeded
    | DecodeFailed            // UnicodeDecodeError: the loop moves on
    | Raised(fault: Fault)    // any other exception leaves the loop for the outer handlers

  /** What the filesystem says about a path. */
  datatype FileProbe = FileProbe(present: bool, regular: bool, readable: bool, open: Encoding -> Attempt)

  /** The messages the processor logs; each names the file concerned. */
  datatype ErrorMessage =
    | Missing(filename: string)
    | NotAFile(filename: string)
    | ReadDenied(filename: string)
    | Undecodable(filename: string)
    | ReadFault(filename: string, fault: Fault)
    | WriteFault(filename: string, fault: Fault)

  /** `(True, content, "")` with the encoding that decoded it, or `(False, "", msg)`. */
  datatype ReadResult = ReadOk(content: string, encoding: Encoding) | ReadErr(message: ErrorMessage)

  /**
   * How `write_file` ends: the write succeeds, or an exception reaches the
   * outer handlers. That exception can come from the backup test or from
   * building the backup path, from creating the directory, or from writing.
   */
  datatype WriteOutcome = Written | WriteRaised(fault: Fault)

  /** `(True, "")` or `(False, msg)`. */
  datatype WriteResult = WriteOk | WriteErr(message: ErrorMessage)

  /** The encoding loop: the first attempt that does not fail to decode settles the result. */
  function TryEncodings(filename: string, open: Encoding -> Attempt, encodings: seq<Encoding>): (r: ReadResult)
    ensures r.ReadOk? ==> r.encoding in encodings && open(r.encoding) == Decoded(r.content)
    ensures r.ReadErr? ==> r.message == Undecodable(filename) || r.message.ReadFault?
    ensures r.ReadErr? && r.message.ReadFault? ==> r.message.filename == filename
  {
    if encodings == [] then ReadErr(Undecodable(filename))
    else match open(encodings[0])
      case Decoded(text) => ReadOk(text, encodings[0])
      case DecodeFailed => TryEncodings(filename, open, encodings[1..])
      case Raised(fault) => ReadErr(ReadFault(filename, fault))
  }

  /** What `read_file(filename)` returns: the checks in order, then the encodings in order. */
  function ReadSpec(filename: string, probe: FileProbe): ReadResult {
    if !probe.present then ReadErr(Missing(filename))
    else if !probe.regular then ReadErr(NotAFile(filename))
    else if !probe.readable then ReadErr(ReadDenied(filename))
    else TryEncodings(filename, probe.open, Encodings)
  }

  predicate ChecksPass(probe: FileProbe) {
    probe.present && probe.regular && probe.readable
  }

  /** Encoding `k` decodes and every encoding before it failed to decode. */
  predicate DecodesFirstAt(open: Encoding -> Attempt, encodings: seq<Encoding>, k: nat) {
    && k < |encodings|
    && open(encodings[k]).Decoded?
    && forall j :: 0 <= j < k ==> open(encodings[j]) == DecodeFailed
  }

  /** Encodings that failed to decode do not affect the result. */
  lemma {:induction false} SkipFailed(filename: string, open: Encoding -> Attempt, encodings: seq<Encoding>, k: nat)
    requires k <= |encodings|
    requires forall j :: 0 <= j < k ==> open(encodings[j]) == DecodeFailed
    ensures TryEncodings(filename, open, encodings) == TryEncodings(filename, open, encodings[k..])
  {
    if k > 0 {
      assert open(encodings[0]) == DecodeFailed;
      SkipFailed(filename, open, encodings[1..], k - 1);
      assert encodings[1..][k - 1..] == encodings[k..];
    }
  }

  /**
   * The loop succeeds exactly when some encoding decodes after all earlier
   * ones failed to decode, and then with that encoding and its text.
   */
  lemma TryEncodingsOk(filename: string, open: Encoding -> Attempt, encodings: seq<Encoding>, content: string, e: Encoding)
    ensures TryEncodings(filename, open, encodings) == ReadOk(content, e)
        <==> exists k: nat :: DecodesFirstAt(open, encodings, k) && encodings[k] == e && open(e) == Decoded(content)
  {
    var r := TryEncodings(filename, open, encodings);
    if r == ReadOk(content, e) {
      var k := FirstSettled(open, encodings);
      SkipFailed(filename, open, encodings, k);
      assert DecodesFirstAt(open, encodings, k);
    }
    if exists k: nat :: DecodesFirstAt(open, encodings, k) && encodings[k] == e && open(e) == Decoded(content) {
      var k: nat :| DecodesFirstAt(open, encodings, k) && encodings[k] == e && open(e) == Decoded(content);
      SkipFailed(filename, open, encodings, k);
    }
  }

  /** Index of the first attempt that does not fail to decode, or the number of encodings. */
  function FirstSettled(open: Encoding -> Attempt, encodings: seq<Encoding>): (k: nat)
    ensures k <= |encodings|
    ensures forall j :: 0 <= j < k ==> open(encodings[j]) == DecodeFailed
    ensures k < |encodings| ==> open(encodings[k]) != DecodeFailed
  {
    if encodings == [] || open(encodings[0]) != DecodeFailed then 0
    else 1 + FirstSettled(open, encodings[1..])
  }

  /**
   * `read_file` checks existence, then that the path is a regular file, then
   * read permission: the first failing check gives the error, and no other
   * outcome produces these three errors.
   */
  lemma ReadCheckOrder(filename: string, probe: FileProbe)
    ensures ReadSpec(filename, probe) == ReadErr(Missing(filename)) <==> !probe.present
    ensures ReadSpec(filename, probe) == ReadErr(NotAFile(filename)) <==> probe.present && !probe.regular
    ensures ReadSpec(filename, probe) == ReadErr(ReadDenied(filename))
        <==> probe.present && probe.regular && !probe.readable
  {
  }

  /**
   * `read_file` succeeds exactly when the checks pass and an encoding of the
   * fixed list decodes after all earlier ones failed to; the result is that
   * first decode.
   */
  lemma ReadSucceeds(filename: string, probe: FileProbe, content: string, e: Encoding)
    ensures ReadSpec(filename, probe) == ReadOk(content, e)
        <==> ChecksPass(probe)
             && exists k: nat :: DecodesFirstAt(probe.open, Encodings, k) && Encodings[k] == e && probe.open(e) == Decoded(content)
  {
    TryEncodingsOk(filename, probe.open, Encodings, content, e);
  }

  /** The undecodable error is reported exactly when the checks pass and all four encodings fail to decode. */
  lemma ReadUndecodable(filename: string, probe: FileProbe)
    ensures ReadSpec(filename, probe) == ReadErr(Undecodable(filename))
        <==> ChecksPass(probe) && forall j :: 0 <= j < |Encodings| ==> probe.open(Encodings[j]) == DecodeFailed
  {
    var open := probe.open;
    var k := FirstSettled(open, Encodings);
    SkipFailed(filename, open, Encodings, k);
    if k < |Encodings| {
      assert Encodings[k..][0] == Encodings[k];
    }
  }

  /**
   * Latin-1 decodes every byte string, so once it is reached cp1252 is never
   * used: a file is read as cp1252 only if Latin-1 failed to decode it.
   */
  lemma Cp1252OnlyAfterLatin1(filename: string, probe: FileProbe, content: string)
    requires ReadSpec(filename, probe) == ReadOk(content, Cp1252)
    ensures probe.open(Latin1) == DecodeFailed
  {
    ReadSucceeds(filename, probe, content, Cp1252);
    var k: nat :| DecodesFirstAt(probe.open, Encodings, k) && Encodings[k] == Cp1252 && probe.open(Cp1252) == Decoded(content);
    assert k == 3;
    assert Encodings[2] == Latin1;
  }

  /** The messages a read adds to the error log: one on failure, none on success. */
  function ReadLog(r: ReadResult): seq<ErrorMessage> {
    if r.ReadErr? then [r.message] else []
  }

  /** What `write_file` returns for the outcome of the write. */
  function WriteSpec(filename: string, outcome: WriteOutcome): WriteResult {
    if outcome.Written? then WriteOk else WriteErr(WriteFault(filename, outcome.fault))
  }

  /** The processor's session state: the files written and the errors met, in order. */
  class FileProcessor {
    var processedFiles: seq<string>
    var errors: seq<ErrorMessage>

    constructor ()
      ensures processedFiles == [] && errors == []
    {
      processedFiles := [];
      errors := [];
    }

    /**
     * `read_file`: returns `ReadSpec`, logs its message when it fails, and
     * leaves the list of processed files alone.
     */
    method ReadFile(filename: string, probe: FileProbe) returns (r: ReadResult)
      modifies this
      ensures r == ReadSpec(filename, probe)
      ensures errors == old(errors) + ReadLog(r)
      ensures processedFiles == old(processedFiles)
    {
      if !probe.present {
        r := ReadErr(Missing(filename));
        errors := errors + [r.message];
        return;
      }
      if !probe.regular {
        r := ReadErr(NotAFile(filename));
        errors := errors + [r.message];
        return;
      }
      if !probe.readable {
        r := ReadErr(ReadDenied(filename));
        errors := errors + [r.message];
        return;
      }
      var i := 0;
      while i < |Encodings|
        invariant 0 <= i <= |Encodings|
        invariant forall j :: 0 <= j < i ==> probe.open(Encodings[j]) == DecodeFailed
        invariant errors == old(errors) && processedFiles == old(processedFiles)
      {
        var encoding := Encodings[i];
        match probe.open(encoding) {
          case Decoded(text) =>
            SkipFailed(filename, probe.open, Encodings, i);
            r := ReadOk(text, encoding);
            return;
          case DecodeFailed =>
            i := i + 1;
          case Raised(fault) =>
            SkipFailed(filename, probe.open, Encodings, i);
            r := ReadErr(ReadFault(filename, fault));
            errors := errors + [r.message];
            return;
        }
      }
      SkipFailed(filename, probe.open, Encodings, i);
      r := ReadErr(Undecodable(filename));
      errors := errors + [r.message];
    }

    /**
     * `write_file`: on success the file name is appended to the processed
     * files once and the error log is unchanged; on failure one message is
     * appended to the error log and the processed files are unchanged.
     */
    method WriteFile(filename: string, content: string, backup: bool, outcome: WriteOutcome) returns (r: WriteResult)
      modifies this
      ensures r == WriteSpec(filename, outcome)
      ensures r.WriteOk? ==> processedFiles == old(processedFiles) + [filename] && errors == old(errors)
      ensures r.WriteErr? ==> errors == old(errors) + [r.message] && processedFiles == old(processedFiles)
    {
      match outcome {
        case Written =>
          processedFiles := processedFiles + [filename];
          r := WriteOk;
        case WriteRaised(fault) =>
          r := WriteErr(WriteFault(filename, fault));
          errors := errors + [r.message];
      }
    }
  }
}
