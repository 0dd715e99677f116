/** What the prover reveals of a notarised HTTP exchange. */
module Disclosure {
  import opened Bytes
  import opened Utf8
  import opened Ranges
  import Presentations

  datatype Header = Header(name: Text, span: RangeList, value: RangeList)

  /** Positions of a parsed request; an absent body is an empty list. */
  datatype Request = Request(
    whole: RangeList, line: RangeList, target: RangeList, headers: seq<Header>, body: RangeList)

  function LowerChar(c: Scalar): Scalar {
    if 65 <= c <= 90 then c + 32 else c
  }

  function Lower(t: Text): (r: Text)
    ensures |r| == |t|
    ensures forall i :: 0 <= i < |t| ==> r[i] == LowerChar(t[i])
  {
    seq(|t|, i requires 0 <= i < |t| => LowerChar(t[i]))
  }

  const AUTHORIZATION: Text := Ascii("authorization")
  const COOKIE: Text := Ascii("cookie")
  const PROXY_AUTHORIZATION: Text := Ascii("proxy-authorization")
  const SECRET_HEADERS: seq<Text> := [AUTHORIZATION, COOKIE, PROXY_AUTHORIZATION]

  predicate IsSecret(name: Text) {
    Lower(name) in SECRET_HEADERS
  }

  /** The request's own characters: everything but target, headers and body. */
  function WithoutData(r: Request): RangeList {
    Subtract(WithoutHeaders(Subtract(r.whole, r.target), r.headers), r.body)
  }

  function WithoutHeaders(rs: RangeList, hs: seq<Header>): RangeList
    decreases |hs|
  {
    if hs == [] then rs else WithoutHeaders(Subtract(rs, hs[0].span), hs[1..])
  }

  function RevealedHeader(h: Header): RangeList {
    if IsSecret(h.name) then Subtract(h.span, h.value) else h.span
  }

  function RevealedHeaders(hs: seq<Header>): RangeList {
    if hs == [] then [] else RevealedHeaders(hs[..|hs| - 1]) + RevealedHeader(hs[|hs| - 1])
  }

  /** All sent positions revealed. */
  function SentRanges(r: Request): RangeList {
    WithoutData(r) + r.target + RevealedHeaders(r.headers)
  }

  /** Accumulates the ranges a transcript proof reveals. */
  class ProofBuilder {
    var sent: RangeList
    var received: RangeList

    constructor ()
      ensures sent == [] && received == []
    {
      sent, received := [], [];
    }

    method RevealSent(rs: RangeList)
      modifies this`sent
      ensures sent == old(sent) + rs
    {
      sent := sent + rs;
    }

    method RevealReceived(rs: RangeList)
      modifies this`received
      ensures received == old(received) + rs
    {
      received := received + rs;
    }
  }

  lemma {:induction false} RevealedSnoc(base: seq<Range>, hs: seq<Header>, i: nat)
    requires i < |hs|
    ensures base + RevealedHeaders(hs[..i + 1]) == base + RevealedHeaders(hs[..i]) + RevealedHeader(hs[i])
  {
    assert hs[..i + 1][..i] == hs[..i];
  }

  method BuildPresentation(request: Request, response: RangeList) returns (sent: RangeList, received: RangeList)
    ensures sent == SentRanges(request) && received == response
  {
    var builder := new ProofBuilder();
    builder.RevealSent(WithoutData(request));
    builder.RevealSent(request.target);
    var i := 0;
    while i < |request.headers|
      invariant 0 <= i <= |request.headers|
      invariant builder.received == []
      invariant builder.sent == WithoutData(request) + request.target + RevealedHeaders(request.headers[..i])
    {
      var header := request.headers[i];
      RevealedSnoc(WithoutData(request) + request.target, request.headers, i);
      if Lower(header.name) in SECRET_HEADERS {
        builder.RevealSent(Subtract(header.span, header.value));
      } else {
        builder.RevealSent(header.span);
      }
      i := i + 1;
    }
    assert request.headers[..i] == request.headers;
    builder.RevealReceived(response);
    sent, received := builder.sent, builder.received;
  }

  // ---- What is revealed --------------------------------------------------------------------

  predicate InSomeHeader(p: nat, hs: seq<Header>) {
    exists h :: h in hs && In(p, h.span)
  }

  /** `name` is `lower` in any casing of its letters. */
  predicate CasingOf(name: Text, lower: Text) {
    && |name| == |lower|
    && forall i :: 0 <= i < |name| ==> name[i] == lower[i] || (97 <= lower[i] <= 122 && name[i] == lower[i] - 32)
  }

  /** The three headers that carry credentials, in any casing. */
  predicate SecretName(name: Text) {
    || CasingOf(name, Ascii("authorization"))
    || CasingOf(name, Ascii("cookie"))
    || CasingOf(name, Ascii("proxy-authorization"))
  }

  lemma {:induction false} LowerExact(name: Text, lower: Text)
    requires forall i :: 0 <= i < |lower| ==> lower[i] == 45 || 97 <= lower[i] <= 122
    ensures Lower(name) == lower <==> CasingOf(name, lower)
  {
    if CasingOf(name, lower) {
      assert forall i :: 0 <= i < |name| ==> LowerChar(name[i]) == lower[i];
    }
    if Lower(name) == lower {
      assert forall i :: 0 <= i < |name| ==> LowerChar(name[i]) == lower[i];
    }
  }

  /** The membership test on lower-cased names finds exactly the three secret names. */
  lemma {:induction false} SecretExact(name: Text)
    ensures IsSecret(name) <==> SecretName(name)
  {
    LowerExact(name, Ascii("authorization"));
    LowerExact(name, Ascii("cookie"));
    LowerExact(name, Ascii("proxy-authorization"));
  }

  /** Position `p` belongs to the value of a secret header. */
  predicate SecretAt(hs: seq<Header>, p: nat) {
    exists h :: h in hs && SecretName(h.name) && In(p, h.value)
  }

  /** What a parser yields: one nested layout of disjoint parts, at every position. */
  ghost predicate Laid(r: Request) {
    forall p: nat :: LaidAt(r, p)
  }

  ghost predicate LaidAt(r: Request, p: nat) {
    && (In(p, r.line) || In(p, r.body) || InSomeHeader(p, r.headers) ==> In(p, r.whole))
    && (In(p, r.target) ==> In(p, r.line))
    && (In(p, r.line) ==> !InSomeHeader(p, r.headers) && !In(p, r.body))
    && (InSomeHeader(p, r.headers) ==> !In(p, r.body))
    && (forall h :: h in r.headers && In(p, h.value) ==> In(p, h.span))
    && (forall i, j :: 0 <= i < j < |r.headers| ==> !(In(p, r.headers[i].span) && In(p, r.headers[j].span)))
  }

  lemma {:induction false} InWithoutHeaders(p: nat, rs: RangeList, hs: seq<Header>)
    ensures In(p, WithoutHeaders(rs, hs)) <==> In(p, rs) && !InSomeHeader(p, hs)
    decreases |hs|
  {
    if hs != [] {
      InSubtract(p, rs, hs[0].span);
      InWithoutHeaders(p, Subtract(rs, hs[0].span), hs[1..]);
      assert forall h :: h in hs <==> h == hs[0] || h in hs[1..];
    }
  }

  /** Some header shows position `p`. */
  predicate ShownBy(hs: seq<Header>, p: nat) {
    exists h :: h in hs && In(p, RevealedHeader(h))
  }

  lemma {:induction false} ShownBySnoc(hs: seq<Header>, last: Header, p: nat)
    ensures ShownBy(hs + [last], p) <==> ShownBy(hs, p) || In(p, RevealedHeader(last))
  {
    if ShownBy(hs, p) {
      var h :| h in hs && In(p, RevealedHeader(h));
      assert h in hs + [last];
    } else if In(p, RevealedHeader(last)) {
      assert last in hs + [last];
    }
  }

  lemma {:induction false} InRevealedHeaders(p: nat, hs: seq<Header>)
    ensures In(p, RevealedHeaders(hs)) <==> ShownBy(hs, p)
  {
    if hs != [] {
      var n := |hs| - 1;
      InRevealedHeaders(p, hs[..n]);
      InAppend(p, RevealedHeaders(hs[..n]), RevealedHeader(hs[n]));
      ShownBySnoc(hs[..n], hs[n], p);
      assert hs == hs[..n] + [hs[n]];
    }
  }

  lemma {:induction false} HeaderPosition(r: Request, h: Header, p: nat)
    requires LaidAt(r, p) && h in r.headers && In(p, h.span)
    ensures In(p, RevealedHeader(h)) <==> !SecretAt(r.headers, p)
  {
    InSubtract(p, h.span, h.value);
    SecretExact(h.name);
    var i :| 0 <= i < |r.headers| && r.headers[i] == h;
    forall g | g in r.headers && SecretName(g.name) && In(p, g.value)
      ensures g == h
    {
      var j :| 0 <= j < |r.headers| && r.headers[j] == g;
      assert In(p, g.span);
    }
  }

  /**
    Exactly what is revealed of the request, position by position: everything but the body and the
    values of secret headers.
    */
  lemma {:induction false} DisclosureExact(r: Request, p: nat)
    requires LaidAt(r, p)
    ensures In(p, SentRanges(r)) <==> In(p, r.whole) && !In(p, r.body) && !SecretAt(r.headers, p)
  {
    InSent(r, p);
    if InSomeHeader(p, r.headers) {
      InsideHeaders(r, p);
    } else {
      OutsideHeaders(r, p);
    }
  }

  lemma {:induction false} InsideHeaders(r: Request, p: nat)
    requires LaidAt(r, p) && InSomeHeader(p, r.headers)
    ensures In(p, RevealedHeaders(r.headers)) <==> !SecretAt(r.headers, p)
  {
    InRevealedHeaders(p, r.headers);
    var h :| h in r.headers && In(p, h.span);
    HeaderPosition(r, h, p);
    forall g | g in r.headers && In(p, RevealedHeader(g))
      ensures !SecretAt(r.headers, p)
    {
      InSubtract(p, g.span, g.value);
      HeaderPosition(r, g, p);
    }
  }

  lemma {:induction false} OutsideHeaders(r: Request, p: nat)
    requires LaidAt(r, p) && !InSomeHeader(p, r.headers)
    ensures !In(p, RevealedHeaders(r.headers)) && !SecretAt(r.headers, p)
  {
    InRevealedHeaders(p, r.headers);
    forall g | g in r.headers
      ensures !In(p, RevealedHeader(g))
    {
      InSubtract(p, g.span, g.value);
    }
  }

  lemma {:induction false} InSent(r: Request, p: nat)
    ensures In(p, SentRanges(r)) <==>
            || (In(p, r.whole) && !In(p, r.target) && !InSomeHeader(p, r.headers) && !In(p, r.body))
            || In(p, r.target)
            || In(p, RevealedHeaders(r.headers))
  {
    var inner := Subtract(r.whole, r.target);
    InSubtract(p, r.whole, r.target);
    InWithoutHeaders(p, inner, r.headers);
    InSubtract(p, WithoutHeaders(inner, r.headers), r.body);
    InAppend(p, WithoutData(r), r.target);
    InAppend(p, WithoutData(r) + r.target, RevealedHeaders(r.headers));
  }

  /** No octet of a secret header's value is revealed, however the header is spelled. */
  lemma {:induction false} SecretsStayHidden(r: Request, h: Header, p: nat)
    requires LaidAt(r, p) && h in r.headers && SecretName(h.name) && In(p, h.value)
    ensures !In(p, SentRanges(r))
  {
    DisclosureExact(r, p);
  }

  /** Everything the prover reveals covers the request line. */
  lemma {:induction false} DisclosureCovers(r: Request)
    requires Laid(r)
    ensures Subset(r.line, SentRanges(r))
  {
    forall p: nat | In(p, r.line)
      ensures In(p, SentRanges(r))
    {
      assert LaidAt(r, p);
      DisclosureExact(r, p);
      forall h | h in r.headers
        ensures !In(p, h.value)
      {
      }
    }
  }

  /**
    The prover meets the verifier: on a transcript whose authenticated positions are the ones the
    prover reveals of the layout the verifier parses, neither coverage gate fires, and verification
    succeeds exactly when the response parses and carries a JSON body.
    */
  lemma {:induction false} GatesPass(t: Presentations.Tlsn, x: Presentations.Transcript, r: Request)
    requires Laid(r)
    requires t.parseRequest(x.sent).Some? && t.parseRequest(x.sent).value.line == r.line
    requires x.sentAuthed == SentRanges(r)
    requires t.parseResponse(x.received).Some? ==> x.receivedAuthed == t.parseResponse(x.received).value.indices
    ensures var v, response := Presentations.VerifyTranscript(t, x), t.parseResponse(x.received);
            && v != Err(Presentations.Coverage(Presentations.RequestLine))
            && v != Err(Presentations.Coverage(Presentations.FullResponse))
            && (v.Ok? <==> response.Some? && response.value.body.Some? && t.parseJson(response.value.body.value).Some?)
  {
    DisclosureCovers(r);
    SubtractEmpty(r.line, x.sentAuthed);
    SubtractEmpty(x.receivedAuthed, x.receivedAuthed);
  }

  /** The value of any other header is revealed, octet for octet. */
  lemma {:induction false} OtherHeadersShow(r: Request, h: Header, p: nat)
    requires LaidAt(r, p) && h in r.headers && !SecretName(h.name) && In(p, h.value)
    ensures In(p, SentRanges(r))
  {
    DisclosureExact(r, p);
    HeaderPosition(r, h, p);
  }

  const API_KEY: Text := Ascii("x-api-key")

  /** For instance an API key: a laid-out request whose `x-api-key` value is revealed. */
  lemma {:induction false} ApiKeyShows() returns (r: Request, h: Header, p: nat)
    ensures Laid(r) && h in r.headers && h.name == API_KEY && In(p, h.value) && In(p, SentRanges(r))
  {
    h := Header(API_KEY, [Range(10, 20)], [Range(15, 18)]);
    r := Request([Range(0, 20)], [Range(0, 10)], [Range(4, 6)], [h], []);
    p := 15;
    assert r.headers[0] == h;
    forall q: nat
      ensures LaidAt(r, q)
    {
      InOne(q, Range(0, 20));
      InOne(q, Range(0, 10));
      InOne(q, Range(4, 6));
      InOne(q, Range(10, 20));
      InOne(q, Range(15, 18));
      assert forall g :: g in r.headers ==> g == h;
    }
    assert |API_KEY| == 9;
    OtherHeadersShow(r, h, p);
  }
}
