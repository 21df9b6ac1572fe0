/** The upload endpoint's text decoding: pick a list of candidate character
    encodings from a detector's guess, decode the uploaded bytes with the first
    candidate that works, and turn the outcome into an HTTP response.

    The encoding detector and the codecs are foreign library code: the
    detector's guess is an input, and decoding is an oracle `Decoder` that
    reports, for a byte string and an encoding name, one of the three things
    the library call can do. */
module Upload {

  type byte = bv8

  datatype Option<T> = None | Some(value: T)

  /** What decoding `bytes` with one named codec does:
      - `Decoded`: it returns the text;
      - `DecodeFailed`: it raises one of the two exceptions the decoding loop
        catches (an invalid byte sequence, or a type error), so the next
        candidate is tried;
      - `Raised`: it raises any other exception (an unknown codec name, say),
        which the loop does not catch and which leaves the reader. */
  datatype DecodeOutcome = Decoded(text: string) | DecodeFailed | Raised(message: string)

  type Decoder = (seq<byte>, string) -> DecodeOutcome

  /** An exception leaving the reader: the HTTP exception it raises itself, or
      any other exception with its message. */
  datatype Failure = HttpException(status: nat, detail: string) | OtherException(message: string)

  /** The reader returns the decoded text and the encoding used, or raises. */
  datatype ReadOutcome = Read(content: string, encoding: string) | Failed(failure: Failure)

  const DefaultEncoding: string := "utf-8"
  const Fallbacks: seq<string> := ["utf-8", "iso-8859-1", "windows-1252"]
  const UndecodableStatus: nat := 400
  const UndecodableDetail: string := "Could not decode the file with any of the supported encodings."

  /** The exception raised when no candidate decodes the bytes. */
  const Undecodable: Failure := HttpException(UndecodableStatus, UndecodableDetail)

  predicate NoDuplicates(s: seq<string>) {
    forall i, j :: 0 <= i < j < |s| ==> s[i] != s[j]
  }

  // ---------------------------------------------------------------------------
  // Candidate list
  // ---------------------------------------------------------------------------

  /** The encoding taken from the detector: its guess, unless the guess is
      missing or empty (both are false in a condition), in which case UTF-8. */
  function EncodingToTry(detected: Option<string>): (e: string)
    ensures e != ""
    ensures detected.Some? && detected.value != "" ==> e == detected.value
    ensures detected.None? || detected.value == "" ==> e == DefaultEncoding
  {
    if detected.Some? && detected.value != "" then detected.value else DefaultEncoding
  }

  /** The ordered candidates: the three fallbacks, with `e` put in front when
      it is not already one of them (names compared exactly, so "UTF-8" is
      not "utf-8"). */
  function Candidates(e: string): (r: seq<string>)
    ensures 3 <= |r| <= 4
    ensures |r| == 3 <==> e in Fallbacks
    ensures r[|r| - 3..] == Fallbacks
    ensures e in r
    ensures |r| == 4 ==> r[0] == e
    ensures forall x :: x in r <==> x == e || x in Fallbacks
    ensures NoDuplicates(r)
  {
    if e in Fallbacks then Fallbacks else [e] + Fallbacks
  }

  /** A detected name that is already a fallback yields exactly the fallback
      list, in its own order. */
  lemma CandidatesOfFallback(e: string)
    requires e in Fallbacks
    ensures Candidates(e) == Fallbacks
  {
    var r := Candidates(e);
    assert r == r[|r| - 3..];
  }

  /** A detector answer that differs from "utf-8" only in case is prepended. */
  lemma CandidatesOfUpperCaseUtf8()
    ensures Candidates(EncodingToTry(Some("UTF-8"))) == ["UTF-8", "utf-8", "iso-8859-1", "windows-1252"]
  {
  }

  // ---------------------------------------------------------------------------
  // First-success decoding: the reference definition
  // ---------------------------------------------------------------------------

  /** Every candidate before index `k` failed to decode (in the caught way). */
  predicate FailedBefore(bytes: seq<byte>, c: seq<string>, decode: Decoder, k: nat)
    requires k <= |c|
  {
    forall j :: 0 <= j < k ==> decode(bytes, c[j]).DecodeFailed?
  }

  predicate AllFailed(bytes: seq<byte>, c: seq<string>, decode: Decoder) {
    FailedBefore(bytes, c, decode, |c|)
  }

  /** `k` is the earliest candidate whose decoding did not fail in the caught
      way: it either decoded or raised. */
  predicate FirstNonFailing(bytes: seq<byte>, c: seq<string>, decode: Decoder, k: nat) {
    k < |c| && !decode(bytes, c[k]).DecodeFailed? && FailedBefore(bytes, c, decode, k)
  }

  /** What the reader does once candidate `enc` did not fail: return the text
      with `enc`, or let the exception out. */
  function Settle(enc: string, o: DecodeOutcome): (r: ReadOutcome)
    requires !o.DecodeFailed?
    ensures r.Read? <==> o.Decoded?
    ensures r.Read? ==> r.content == o.text && r.encoding == enc
    ensures r.Failed? ==> r.failure == OtherException(o.message)
  {
    match o
    case Decoded(t) => Read(t, enc)
    case Raised(m) => Failed(OtherException(m))
  }

  /** Tries the candidates in order and keeps the first outcome that is not a
      caught decoding failure; when all fail, the HTTP 400 exception. */
  function FirstDecodable(bytes: seq<byte>, c: seq<string>, decode: Decoder): ReadOutcome
    decreases |c|
  {
    if c == [] then Failed(Undecodable)
    else
      var o := decode(bytes, c[0]);
      if o.DecodeFailed? then FirstDecodable(bytes, c[1..], decode) else Settle(c[0], o)
  }

  /** The whole reader on values: detector guess, candidates, first success. */
  function ReadOutcomeOf(bytes: seq<byte>, detected: Option<string>, decode: Decoder): ReadOutcome {
    FirstDecodable(bytes, Candidates(EncodingToTry(detected)), decode)
  }

  lemma {:induction false} FailedBeforeTail(bytes: seq<byte>, c: seq<string>, decode: Decoder, k: nat)
    requires 0 < k <= |c|
    ensures FailedBefore(bytes, c, decode, k) <==>
            decode(bytes, c[0]).DecodeFailed? && FailedBefore(bytes, c[1..], decode, k - 1)
  {
    if FailedBefore(bytes, c, decode, k) {
      forall j | 0 <= j < k - 1 ensures decode(bytes, c[1..][j]).DecodeFailed? {
        assert c[1..][j] == c[j + 1];
      }
    }
    if decode(bytes, c[0]).DecodeFailed? && FailedBefore(bytes, c[1..], decode, k - 1) {
      forall j | 0 <= j < k ensures decode(bytes, c[j]).DecodeFailed? {
        if j > 0 { assert c[j] == c[1..][j - 1]; }
      }
    }
  }

  /** The outcome is decided by the earliest candidate that did not fail. */
  lemma {:induction false} FirstDecodableAt(bytes: seq<byte>, c: seq<string>, decode: Decoder, k: nat)
    requires FirstNonFailing(bytes, c, decode, k)
    ensures FirstDecodable(bytes, c, decode) == Settle(c[k], decode(bytes, c[k]))
    decreases k
  {
    if k > 0 {
      FailedBeforeTail(bytes, c, decode, k);
      assert c[1..][k - 1] == c[k];
      FirstDecodableAt(bytes, c[1..], decode, k - 1);
    }
  }

  /** The reader raises the HTTP 400 exception exactly when every candidate
      failed to decode. */
  lemma {:induction false} FirstDecodableExhausted(bytes: seq<byte>, c: seq<string>, decode: Decoder)
    ensures FirstDecodable(bytes, c, decode) == Failed(Undecodable) <==> AllFailed(bytes, c, decode)
    decreases |c|
  {
    if c != [] {
      FailedBeforeTail(bytes, c, decode, |c|);
      FirstDecodableExhausted(bytes, c[1..], decode);
    }
  }

  /** A successful read names an encoding from the list, at the earliest
      position that did not fail, and its text is that codec's result. */
  lemma {:induction false} FirstDecodableReadIsEarliest(bytes: seq<byte>, c: seq<string>, decode: Decoder)
    requires FirstDecodable(bytes, c, decode).Read?
    ensures var r := FirstDecodable(bytes, c, decode);
            exists k: nat :: FirstNonFailing(bytes, c, decode, k) && c[k] == r.encoding
                        && decode(bytes, c[k]) == Decoded(r.content)
    decreases |c|
  {
    var r := FirstDecodable(bytes, c, decode);
    if decode(bytes, c[0]).DecodeFailed? {
      FirstDecodableReadIsEarliest(bytes, c[1..], decode);
      var k: nat :| FirstNonFailing(bytes, c[1..], decode, k) && c[1..][k] == r.encoding
               && decode(bytes, c[1..][k]) == Decoded(r.content);
      FailedBeforeTail(bytes, c, decode, k + 1);
      assert FirstNonFailing(bytes, c, decode, k + 1);
    } else {
      assert FirstNonFailing(bytes, c, decode, 0);
    }
  }

  // ---------------------------------------------------------------------------
  // The reader, as the source runs it
  // ---------------------------------------------------------------------------

  /** Decodes `bytes` with the detector's guess and the fallbacks, keeping the
      first encoding that decodes. */
  method ReadFileContent(bytes: seq<byte>, detected: Option<string>, decode: Decoder)
    returns (r: ReadOutcome)
    ensures r == ReadOutcomeOf(bytes, detected, decode)
    ensures r.Read? ==> exists k: nat :: FirstNonFailing(bytes, Candidates(EncodingToTry(detected)), decode, k)
                                    && Candidates(EncodingToTry(detected))[k] == r.encoding
    ensures r.Read? ==> decode(bytes, r.encoding) == Decoded(r.content)
    ensures r == Failed(Undecodable) <==> AllFailed(bytes, Candidates(EncodingToTry(detected)), decode)
    ensures r.Failed? ==> r.failure == Undecodable || r.failure.OtherException?
  {
    var encoding := EncodingToTry(detected);
    var candidates := Candidates(encoding);
    var decoded: Option<string> := None;
    var used: Option<string> := None;
    var i := 0;
    while i < |candidates|
      invariant 0 <= i <= |candidates|
      invariant decoded.None? && used.None?
      invariant FailedBefore(bytes, candidates, decode, i)
      invariant FirstDecodable(bytes, candidates, decode) == FirstDecodable(bytes, candidates[i..], decode)
    {
      var enc := candidates[i];
      assert candidates[i..][1..] == candidates[i + 1..];
      match decode(bytes, enc)
      case Decoded(t) =>
        decoded, used := Some(t), Some(enc);
        assert FirstNonFailing(bytes, candidates, decode, i);
        break;
      case Raised(m) =>
        return Failed(OtherException(m));
      case DecodeFailed =>
        i := i + 1;
    }
    if decoded.None? {
      assert candidates[i..] == [];
      return Failed(Undecodable);
    }
    r := Read(decoded.value, used.value);
  }

  // ---------------------------------------------------------------------------
  // What the reader's contract implies
  // ---------------------------------------------------------------------------

  /** A detector guess that is already one of the fallbacks changes nothing:
      the outcome is the one for no guess at all. */
  lemma DetectedFallbackIsIrrelevant(bytes: seq<byte>, e: string, decode: Decoder)
    requires e in Fallbacks
    ensures ReadOutcomeOf(bytes, Some(e), decode) == ReadOutcomeOf(bytes, None, decode)
  {
    assert EncodingToTry(Some(e)) == e;
    assert EncodingToTry(None) == DefaultEncoding;
    CandidatesOfFallback(e);
    CandidatesOfFallback(DefaultEncoding);
  }

  /** A detector guess outside the fallbacks is tried first, so when it
      decodes it is the encoding used. */
  lemma DetectedOutsideFallbacksWins(bytes: seq<byte>, e: string, decode: Decoder)
    requires e != "" && e !in Fallbacks
    requires decode(bytes, e).Decoded?
    ensures ReadOutcomeOf(bytes, Some(e), decode) == Read(decode(bytes, e).text, e)
  {
    var c := Candidates(e);
    assert FirstNonFailing(bytes, c, decode, 0);
    FirstDecodableAt(bytes, c, decode, 0);
  }

  /** Because the ISO-8859-1 codec maps every byte to a character, once it
      decodes the bytes the 400 exception cannot happen and "windows-1252",
      which comes after it, is never the encoding used. */
  lemma Latin1ShadowsWindows1252(bytes: seq<byte>, detected: Option<string>, decode: Decoder)
    requires decode(bytes, "iso-8859-1").Decoded?
    ensures ReadOutcomeOf(bytes, detected, decode) != Failed(Undecodable)
    ensures ReadOutcomeOf(bytes, detected, decode).Read? ==>
              ReadOutcomeOf(bytes, detected, decode).encoding != "windows-1252"
  {
    var c := Candidates(EncodingToTry(detected));
    var n := |c|;
    assert c[n - 3..][1] == c[n - 2] == "iso-8859-1";
    assert c[n - 3..][2] == c[n - 1] == "windows-1252";
    FirstDecodableExhausted(bytes, c, decode);
    var r := FirstDecodable(bytes, c, decode);
    if r.Read? {
      FirstDecodableReadIsEarliest(bytes, c, decode);
      var k: nat :| FirstNonFailing(bytes, c, decode, k) && c[k] == r.encoding
               && decode(bytes, c[k]) == Decoded(r.content);
      assert !decode(bytes, c[n - 2]).DecodeFailed?;
      assert k <= n - 2;
      assert c[k] != c[n - 1];
    }
  }

  // ---------------------------------------------------------------------------
  // The upload handler's response
  // ---------------------------------------------------------------------------

  const OkStatus: nat := 200
  const InternalErrorStatus: nat := 500
  const UnexpectedPrefix: string := "An unexpected error occurred: "

  /** The CSV reader: the table's rows, or the message of the exception it raised. */
  datatype CsvOutcome = Parsed(rows: seq<map<string, string>>) | ParseRaised(message: string)

  type CsvReader = string -> CsvOutcome
  type LineSplitter = string -> seq<string>

  datatype Data = Records(rows: seq<map<string, string>>) | Lines(lines: seq<string>)

  datatype Body =
    | Uploaded(filename: string, detectedEncoding: string, data: Data)
    | ErrorBody(error: string)

  datatype Response = Response(status: nat, body: Body)

  /** The handler's two exception clauses: an HTTP exception keeps its status
      and detail, anything else becomes a 500 with the message appended to a
      fixed prefix. */
  function ErrorResponse(f: Failure): (resp: Response)
    ensures resp.body.ErrorBody?
    ensures f.HttpException? ==> resp.status == f.status && resp.body.error == f.detail
    ensures f.OtherException? ==> resp.status == InternalErrorStatus
                                  && resp.body.error == UnexpectedPrefix + f.message
  {
    match f
    case HttpException(status, detail) => Response(status, ErrorBody(detail))
    case OtherException(message) => Response(InternalErrorStatus, ErrorBody(UnexpectedPrefix + message))
  }

  /** The file name ends in ".csv" (case-sensitive). */
  predicate IsCsvName(name: string) {
    |name| >= 4 && name[|name| - 4..] == ".csv"
  }

  /** Rendering a success body as JSON: it succeeds, or raises (a NaN cell
      from the CSV reader cannot be rendered, for one). The rendering happens
      inside the handler's `try`, so its exception is answered like any other. */
  datatype RenderOutcome = Rendered | RenderRaised(message: string)

  type Renderer = Body -> RenderOutcome

  /** The success body: the file name, the encoding used, and the CSV rows for
      a ".csv" name or the text's lines otherwise. */
  function SuccessBody(filename: string, read: ReadOutcome, readCsv: CsvReader, splitLines: LineSplitter): Body
    requires read.Read?
    requires IsCsvName(filename) ==> readCsv(read.content).Parsed?
  {
    Uploaded(filename, read.encoding,
             if IsCsvName(filename) then Records(readCsv(read.content).rows)
             else Lines(splitLines(read.content)))
  }

  /** Reads the upload and answers: the decoded data with the encoding used,
      or the error response for whatever was raised. */
  method UploadFile(filename: string, bytes: seq<byte>, detected: Option<string>, decode: Decoder,
                    readCsv: CsvReader, splitLines: LineSplitter, render: Renderer)
    returns (resp: Response)
    ensures var read := ReadOutcomeOf(bytes, detected, decode);
            read.Failed? ==> resp == ErrorResponse(read.failure)
    ensures var read := ReadOutcomeOf(bytes, detected, decode);
            read.Read? && IsCsvName(filename) && readCsv(read.content).ParseRaised? ==>
              resp == ErrorResponse(OtherException(readCsv(read.content).message))
    ensures var read := ReadOutcomeOf(bytes, detected, decode);
            read.Read? && (IsCsvName(filename) ==> readCsv(read.content).Parsed?) ==>
              var body := SuccessBody(filename, read, readCsv, splitLines);
              resp == if render(body).Rendered? then Response(OkStatus, body)
                      else ErrorResponse(OtherException(render(body).message))
    ensures var read := ReadOutcomeOf(bytes, detected, decode);
            resp.status == UndecodableStatus <==> read == Failed(Undecodable)
    ensures resp.status == UndecodableStatus <==>
              AllFailed(bytes, Candidates(EncodingToTry(detected)), decode)
    ensures resp.status == UndecodableStatus ==> resp.body == ErrorBody(UndecodableDetail)
    ensures var read := ReadOutcomeOf(bytes, detected, decode);
            resp.status == OkStatus <==>
              read.Read? && (IsCsvName(filename) ==> readCsv(read.content).Parsed?)
              && render(SuccessBody(filename, read, readCsv, splitLines)).Rendered?
    ensures resp.status == InternalErrorStatus ==>
              exists m :: resp.body == ErrorBody(UnexpectedPrefix + m)
    ensures resp.status != OkStatus ==> resp.body.ErrorBody?
    ensures resp.status in {OkStatus, UndecodableStatus, InternalErrorStatus}
  {
    var read := ReadFileContent(bytes, detected, decode);
    if read.Failed? {
      return ErrorResponse(read.failure);
    }
    var data: Data;
    if IsCsvName(filename) {
      match readCsv(read.content)
      case ParseRaised(m) =>
        return ErrorResponse(OtherException(m));
      case Parsed(rows) =>
        data := Records(rows);
    } else {
      data := Lines(splitLines(read.content));
    }
    var body := Uploaded(filename, read.encoding, data);
    match render(body)
    case RenderRaised(m) =>
      resp := ErrorResponse(OtherException(m));
    case Rendered =>
      resp := Response(OkStatus, body);
  }
}
