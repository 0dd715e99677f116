/** Verification of a presentation artifact: the only source of data the signer will sign. */
module Presentations {
  import opened Bytes
  import opened Utf8
  import opened Ranges
  import opened Json

  datatype Transcript = Transcript(
    sent: ByteSeq, sentAuthed: RangeList, received: ByteSeq, receivedAuthed: RangeList)

  datatype Output = Output(serverName: Option<Text>, transcript: Option<Transcript>)

  /** A deserialised presentation; `output` is absent when its cryptographic verification fails. */
  datatype Presentation = Presentation(notaryKey: ByteSeq, output: Option<Output>)

  datatype ParsedRequest = ParsedRequest(line: RangeList, target: Text)

  datatype ParsedResponse = ParsedResponse(indices: RangeList, body: Option<ByteSeq>)

  /** The verifier's allowlist, and the libraries it calls. */
  datatype Tlsn = Tlsn(
    trustedNotaryKeys: seq<ByteSeq>,
    deserialize: ByteSeq -> Option<Presentation>,
    parseRequest: ByteSeq -> Option<ParsedRequest>,
    parseResponse: ByteSeq -> Option<ParsedResponse>,
    parseJson: ByteSeq -> Option<Json>)

  datatype TlsData = TlsData(host: Text, path: Text, response: Json, artifact: ByteSeq)

  datatype Gap = RequestLine | FullResponse | ResponseBody

  datatype VerifyError =
    | Deserialize
    | UntrustedNotary
    | Verification
    | MissingServerName
    | MissingTranscript
    | Coverage(gap: Gap)
    | Http
    | BadJson

  function VerifyPresentation(t: Tlsn, artifact: ByteSeq): Result<TlsData, VerifyError> {
    match t.deserialize(artifact)
    case None => Err(Deserialize)
    case Some(presentation) =>
      if presentation.notaryKey !in t.trustedNotaryKeys then Err(UntrustedNotary)
      else if presentation.output.None? then Err(Verification)
      else
        var output := presentation.output.value;
        if output.serverName.None? then Err(MissingServerName)
        else if output.transcript.None? then Err(MissingTranscript)
        else
          match VerifyTranscript(t, output.transcript.value)
          case Err(e) => Err(e)
          case Ok((path, json)) => Ok(TlsData(output.serverName.value, path, json, artifact))
  }

  /** Parsing and the two coverage gates. */
  function VerifyTranscript(t: Tlsn, transcript: Transcript): Result<(Text, Json), VerifyError> {
    match t.parseRequest(transcript.sent)
    case None => Err(Http)
    case Some(request) =>
      if Subtract(request.line, transcript.sentAuthed) != [] then Err(Coverage(RequestLine))
      else
        match t.parseResponse(transcript.received)
        case None => Err(Http)
        case Some(response) =>
          if Subtract(response.indices, transcript.receivedAuthed) != [] then Err(Coverage(FullResponse))
          else if response.body.None? then Err(Coverage(ResponseBody))
          else
            match t.parseJson(response.body.value)
            case None => Err(BadJson)
            case Some(json) => Ok((request.target, json))
  }

  /** Path and document were parsed from a transcript that authenticates every position the parsers report. */
  ghost predicate Authenticated(t: Tlsn, transcript: Transcript, path: Text, json: Json) {
    var request, response := t.parseRequest(transcript.sent), t.parseResponse(transcript.received);
    && request.Some? && response.Some? && response.value.body.Some?
    && Subset(request.value.line, transcript.sentAuthed)
    && Subset(response.value.indices, transcript.receivedAuthed)
    && request.value.target == path
    && t.parseJson(response.value.body.value) == Some(json)
  }

  /** `artifact` is a presentation, signed by a trusted notary, that proves `d`. */
  ghost predicate Proves(t: Tlsn, artifact: ByteSeq, d: TlsData) {
    var p := t.deserialize(artifact);
    && p.Some? && p.value.notaryKey in t.trustedNotaryKeys
    && p.value.output.Some?
    && p.value.output.value.serverName == Some(d.host)
    && p.value.output.value.transcript.Some?
    && Authenticated(t, p.value.output.value.transcript.value, d.path, d.response)
    && d.artifact == artifact
  }

  /** Verification yields data exactly when the artifact proves it. */
  lemma VerifyExact(t: Tlsn, artifact: ByteSeq, d: TlsData)
    ensures VerifyPresentation(t, artifact) == Ok(d) <==> Proves(t, artifact, d)
  {
    var p := t.deserialize(artifact);
    if p.Some? && p.value.output.Some? && p.value.output.value.transcript.Some? {
      var transcript := p.value.output.value.transcript.value;
      var request, response := t.parseRequest(transcript.sent), t.parseResponse(transcript.received);
      if request.Some? && response.Some? {
        SubtractEmpty(request.value.line, transcript.sentAuthed);
        SubtractEmpty(response.value.indices, transcript.receivedAuthed);
      }
    }
  }

  // ---- Reasons for refusal -----------------------------------------------------------------

  /** Why a transcript is refused: each reason, and exactly when it is given. */
  lemma {:induction false} TranscriptRefusals(t: Tlsn, x: Transcript)
    ensures var v, request, response := VerifyTranscript(t, x), t.parseRequest(x.sent), t.parseResponse(x.received);
            var lineShown := request.Some? && Subset(request.value.line, x.sentAuthed);
            var allShown := lineShown && response.Some? && Subset(response.value.indices, x.receivedAuthed);
            && (v == Err(Http) <==> request.None? || (lineShown && response.None?))
            && (v == Err(Coverage(RequestLine)) <==> request.Some? && !lineShown)
            && (v == Err(Coverage(FullResponse)) <==> lineShown && response.Some? && !allShown)
            && (v == Err(Coverage(ResponseBody)) <==> allShown && response.value.body.None?)
            && (v == Err(BadJson) <==> allShown && response.value.body.Some? && t.parseJson(response.value.body.value).None?)
            && v != Err(Deserialize) && v != Err(UntrustedNotary) && v != Err(Verification)
            && v != Err(MissingServerName) && v != Err(MissingTranscript)
  {
    var request, response := t.parseRequest(x.sent), t.parseResponse(x.received);
    if request.Some? {
      SubtractEmpty(request.value.line, x.sentAuthed);
    }
    if response.Some? {
      SubtractEmpty(response.value.indices, x.receivedAuthed);
    }
  }

  /** Why an artifact is refused before its transcript is read, and that the transcript decides after that. */
  lemma {:induction false} PresentationRefusals(t: Tlsn, artifact: ByteSeq)
    ensures var v, p := VerifyPresentation(t, artifact), t.deserialize(artifact);
            var trusted := p.Some? && p.value.notaryKey in t.trustedNotaryKeys;
            var proven := trusted && p.value.output.Some?;
            && (v == Err(Deserialize) <==> p.None?)
            && (v == Err(UntrustedNotary) <==> p.Some? && !trusted)
            && (v == Err(Verification) <==> trusted && !proven)
            && (v == Err(MissingServerName) <==> proven && p.value.output.value.serverName.None?)
            && (v == Err(MissingTranscript) <==>
                  proven && p.value.output.value.serverName.Some? && p.value.output.value.transcript.None?)
            && (proven && p.value.output.value.serverName.Some? && p.value.output.value.transcript.Some? ==>
                  var x := VerifyTranscript(t, p.value.output.value.transcript.value);
                  x.Err? ==> v == Err(x.error))
  {
    var p := t.deserialize(artifact);
    if p.Some? && p.value.output.Some? && p.value.output.value.transcript.Some? {
      TranscriptRefusals(t, p.value.output.value.transcript.value);
    }
  }

  // ---- Only authenticated octets matter ----------------------------------------------------

  /** Equally long, and equal at the positions of `rs`. */
  ghost predicate AgreeOn(a: ByteSeq, b: ByteSeq, rs: seq<Range>) {
    |a| == |b| && forall p :: 0 <= p < |a| && In(p, rs) ==> a[p] == b[p]
  }

  /**
    The parsers read what they report: texts they both accept that agree at the positions reported
    for one of them parse alike.
    */
  ghost predicate ParsersLocal(t: Tlsn) {
    && (forall a, b :: t.parseRequest(a).Some? && t.parseRequest(b).Some? && AgreeOn(a, b, t.parseRequest(a).value.line)
                       ==> t.parseRequest(b) == t.parseRequest(a))
    && (forall a, b :: t.parseResponse(a).Some? && t.parseResponse(b).Some? && AgreeOn(a, b, t.parseResponse(a).value.indices)
                       ==> t.parseResponse(b) == t.parseResponse(a))
  }

  /** Two transcripts that authenticate the same positions and agree on them. */
  ghost predicate SameAuthenticated(x: Transcript, y: Transcript) {
    && x.sentAuthed == y.sentAuthed && AgreeOn(x.sent, y.sent, x.sentAuthed)
    && x.receivedAuthed == y.receivedAuthed && AgreeOn(x.received, y.received, x.receivedAuthed)
  }

  /** Octets that were not authenticated cannot change what verification yields. */
  lemma UnauthenticatedOctetsIgnored(t: Tlsn, x: Transcript, y: Transcript)
    requires ParsersLocal(t) && SameAuthenticated(x, y)
    requires VerifyTranscript(t, x).Ok? && VerifyTranscript(t, y).Ok?
    ensures VerifyTranscript(t, x) == VerifyTranscript(t, y)
  {
    var request, response := t.parseRequest(x.sent).value, t.parseResponse(x.received).value;
    SubtractEmpty(request.line, x.sentAuthed);
    SubtractEmpty(response.indices, x.receivedAuthed);
    assert AgreeOn(x.sent, y.sent, request.line);
    assert AgreeOn(x.received, y.received, response.indices);
  }
}
