# WebProof, modelled and proved in Dafny

WebProof turns data returned by an HTTPS server into claims a Solana program can use. A prover
notarises a TLS session and reveals part of it; a verifier checks the presentation, reads one JSON
scalar and signs a canonical claim; an SDK puts the signature and the claim into one transaction;
the on-chain program checks both and stores an immutable account; the SDK reads the account back.
This project models that pipeline as one connected system and proves what holds of the whole.

`dafny verify dfyconfig.toml` checks everything.

## The main results

* **End-to-end provenance** (`Pipeline.EndToEndProvenance`): in every interleaving of signings and
  transactions in which no signature is forged and the configured key is the signer's, every stored
  account reads back as a record whose host, path hash, key, value and provenance hash come from one
  presentation that verified, through one signing made before the account was created.
* **Delivery** (`Pipeline.SignedClaimDelivers`): a signed claim gets through `signed-claim.json` and is
  made a transaction if and only if its two times survive as JavaScript numbers. On any state of the
  chain that transaction commits if and only if the signer's key is configured, the claim's id is free
  and the clock is in the acceptance window; reading the account back then returns the signed claim. In
  a reachable chain a taken id already holds that very claim, barring a collision
  (`Pipeline.IdNotSquatted`).
* **Two parsers agree** (`Ed25519.ReadersAgree`): introspection accepts exactly the self-contained
  instructions whose one native check is of this message under this key.
* **Every run** (module `History`): accounts are never altered or removed, each is explained by one
  accepted submission, one Ed25519 instruction authorises at most one account, although accounts are
  created before they are checked.
* **Codecs**: Borsh framing, UTF-8, the claim and the account record round-trip, are canonical and
  prefix-free; the hand-rolled TypeScript encoder agrees with Rust octet for octet, and throws exactly
  when there is no such claim in Rust or Rust refuses to serialise it.
* **Disclosure** (`Disclosure.DisclosureExact`, `Disclosure.GatesPass`): exactly which octets the prover
  reveals, and that they pass both of the verifier's coverage gates.
* **Exact effects** (`Effects.CommitExact`): which octets on the wire have which effect on the chain, as
  an if and only if over calls and whole transactions, and every refusal with its exact reason.
* **JSON Pointer** (`Json.PointerExact`): on every document and every text the evaluator finds a value
  exactly where the document, built around that value, holds it.
* **Exact windows and exact exceptions**: the saturating clock checks decide the unbounded-integer
  window except on one stated family of inputs, which is shown to exist.

## How it is modelled

| module | part of the system |
|---|---|
| `Bytes`, `Utf8`, `Borsh` | octets, little-endian integers, UTF-8 (section 3 of RFC 3629), Borsh framing |
| `Core`, `Records` | webproof-core claims and validation; the stored record and its allocation |
| `Golden` | the golden vector shared by the Rust and TypeScript tests |
| `Ed25519` | the native Ed25519 program's reader and the claim program's introspection |
| `Program`, `Effects`, `History` | the on-chain program as a class over raw accounts; what its calls and transactions do; runs of it |
| `Sdk`, `AccountReader`, `Client` | the TypeScript SDK: encoder, account reader, instruction builder |
| `Doubles`, `SignedFile` | JavaScript numbers (IEEE 754 doubles) and the signed-claim file read through them |
| `Json`, `Presentations`, `Signer` | JSON Pointer (sections 3 and 4 of RFC 6901), presentation verification, signing |
| `Ranges`, `Disclosure` | range sets, and what the prover reveals |
| `Pipeline` | signings and transactions together |

SHA-256, Ed25519, the TLSNotary cryptography and the HTTP and JSON text parsers are parameters.
Nothing is assumed of them except, where stated in a `requires` or as a premise: that SHA-256 does not
collide on two named inputs (`SignedFile`, `Pipeline`), that native checks under the signer's key pass
only for messages signed earlier in the history, that the signer's own signatures pass (`Pipeline`),
and that the HTTP parsers read the positions they report
(`Presentations.UnauthenticatedOctetsIgnored`). The clock is an argument of every transaction and may
take any value at any time.

An instruction is a native Ed25519 instruction, a call of this program, or a foreign instruction that
may itself call this program any number of times; in that case introspection still sees the top-level
instructions, as the instructions sysvar reports them. Discriminators are the real 8-octet values.
The native Ed25519 program, the web3.js instruction layout, `serde_json` pointers and the range-set
and HTTP-format libraries are not part of the repository; they are modelled by their documented
behaviour.

Where code and documentation differ, the code is followed: `present.rs` says it reveals the `Host`
header, and reveals every request header except the values of three secret ones, so that for example
an `x-api-key` is revealed with its value (`Disclosure.ApiKeyShows`); the documentation
promises a configured maximum age without exception, and the code accepts any age when the maximum is
`i64::MAX` and the age exceeds it (`Core.AgeSaturationHappens`).

## Model

| member | source | states |
|---|---|---|
| `Utf8.RoundTrip` | crates/webproof-core/src/lib.rs:12-23 | strict UTF-8 decoding inverts encoding on every text |
| `Utf8.Canonical` | programs/webproof/src/state.rs:37-48 | every accepted UTF-8 octet string is the encoding of what it decodes to |
| `Utf8.LossyFaithful` | sdk/typescript/src/index.ts:157-160 | the replacing decoder loses nothing exactly on well-formed UTF-8 |
| `Utf8.LossyReads` | sdk/typescript/src/index.ts:157-160 | the replacing decoder reads every well-formed scalar as itself |
| `Utf8.LossyReplaces` | sdk/typescript/src/index.ts:157-160 | where no scalar stands, the longest run of octets that begins one, at least one octet, becomes one replacement character |
| `Bytes.TwosComplement` | sdk/typescript/src/index.ts:55-59 | the eight octets of an i64 spell it modulo 2^64 |
| `Borsh.RoundTrip` | crates/webproof-core/src/lib.rs:42-44 | a record of any layout decodes to itself whatever follows it, leaving exactly what followed |
| `Borsh.Canonical` | programs/webproof/src/state.rs:37-48 | whatever the decoder accepts re-encodes to exactly the octets consumed |
| `Borsh.PrefixFree` | crates/webproof-core/src/lib.rs:42-44 | no encoding is a prefix of another of the same layout, and none has two readings |
| `Core.ClaimRoundTrip` | crates/webproof-core/src/lib.rs:42-44 | decoding a claim's canonical bytes followed by any suffix gives the claim and the suffix |
| `Core.ClaimCanonical` | programs/webproof/src/state.rs:35-48 | any octets accepted as a claim are its canonical bytes plus what was not read |
| `Core.ClaimPrefixFree` | crates/webproof-core/src/lib.rs:42-44 | claim encodings are injective and prefix-free |
| `Core.CanonicalInjective` | crates/webproof-core/src/lib.rs:42-48 | equal canonical bytes mean equal claims |
| `Core.SigningMessageInjective` | crates/webproof-core/src/lib.rs:50-56 | two claims have the same signing message if and only if every field is equal |
| `Core.CanonicalLayout` | crates/webproof-core/src/lib.rs:12-44 | the canonical bytes of every claim, field by field |
| `Core.CanonicalLength` | crates/webproof-core/src/lib.rs:42-44 | canonical bytes take 125 octets plus the three UTF-8 lengths |
| `Core.ValidateExact` | crates/webproof-core/src/lib.rs:58-87 | validation accepts exactly the well-sized claims in the unbounded-integer window or in the one saturating family, and differs from the exact window only there |
| `Core.AgeSaturationHappens` | crates/webproof-core/src/lib.rs:74-76 | a concrete claim older than any maximum age that is accepted |
| `Core.ValidatedSize` | programs/webproof/src/verification.rs:18-31 | a validated claim serialises and its signing message has at most 661 octets |
| `Core.ValidatedSizeTight` | programs/webproof/src/verification.rs:20-31 | a validated claim whose message has exactly 661 octets |
| `Records.RecordLayout` | programs/webproof/src/state.rs:16-33 | the stored octets of every record, discriminator first, field by field |
| `Records.RecordLength` | programs/webproof/src/state.rs:16-33 | a flushed record takes 173 octets plus the three UTF-8 lengths |
| `Records.RecordFits` | programs/webproof/src/lib.rs:89 | the record of a well-sized claim never overflows the 8+677 octets reserved for it |
| `Records.RecordFitsTight` | programs/webproof/src/lib.rs:89 | a validated claim that fills the reservation to the last octet |
| `Records.FlushIsAccountData` | programs/webproof/src/lib.rs:59-70 | flushing into a zeroed account leaves the record followed by zero padding |
| `Ed25519.ReadersAgree` | programs/webproof/src/verification.rs:45-107 | introspection accepts if and only if the instruction is self-contained and the native program performs exactly one check, of this message under this key |
| `Ed25519.IntrospectionSound` | programs/webproof/src/verification.rs:53-107 | accepted by introspection and by the native program: the one verified signature is over the configured key and the complete message |
| `Ed25519.AcceptsOneMessage` | programs/webproof/src/verification.rs:94-101 | one instruction is accepted for at most one key and one message |
| `Ed25519.IntrospectionRefusals` | programs/webproof/src/verification.rs:81-107 | for each error of introspection, exactly the instruction data that yields it |
| `Ed25519.NativeExact` | programs/webproof/src/verification.rs:53-65 | the native program accepts exactly the data whose every offsets record names a key, message and signature, here or in another instruction, that verify |
| `Ed25519.BuiltInstructionReads` | sdk/typescript/src/index.ts:279-283 | both readers find key, message and signature in the instruction the SDK builds, in any transaction |
| `Ed25519.BuiltInstructionPasses` | sdk/typescript/src/index.ts:279-283 | the native program accepts the built instruction when the signature verifies |
| `Program.ValidatorsAgree` | programs/webproof/src/verification.rs:18-43 | the on-chain and the core validator give the same verdict with the corresponding error on all inputs |
| `Program.ValidateRefusals` | programs/webproof/src/verification.rs:18-43 | for each validation error, exactly the claims and times that yield it, in unbounded integers |
| `Program.SubmitExact` | programs/webproof/src/lib.rs:39-72 | submission succeeds if and only if there is a config, the id is free, the claim is validated and hashes to the id, and the preceding instruction vouches for it; the account then holds exactly its record; serialisation never fails |
| `Program.SubmitRefusals` | programs/webproof/src/lib.rs:39-72 | for each error of a submission, exactly the state, claim and preceding instruction that yield it |
| `Program.WireIsCanonical` | programs/webproof/src/lib.rs:46-58 | claim octets on the wire are the canonical bytes the message is rebuilt from |
| `Program.ClaimAccount.Fill` | programs/webproof/src/lib.rs:59-70 | the field assignments make the record of the submitted claim |
| `Program.Ledger.InitializeConfig` | programs/webproof/src/lib.rs:25-37 | verdict and new config, including the zeroed config a refusal leaves before rollback |
| `Program.Ledger.SubmitClaim` | programs/webproof/src/lib.rs:39-72 | verdict and new accounts, including the zeroed account a refusal leaves before rollback |
| `Program.Ledger.Invoke` | programs/webproof/src/lib.rs:21-73 | dispatch does what the called handler decides |
| `Program.Ledger.ExecuteInstruction` | programs/webproof/src/verification.rs:66-80 | a top-level instruction runs its calls in turn against the introspection context |
| `Program.Ledger.Execute` | programs/webproof/src/lib.rs:75-97 | a transaction has the effect of all its instructions or, on any failure, none |
| `Effects.ParseExact` | programs/webproof/src/lib.rs:21-43 | a call is read as initialising or submitting exactly when its data starts with the discriminator and the canonical octets of those arguments, and every other call is refused with a fixed reason |
| `Effects.CallExact` | programs/webproof/src/lib.rs:21-73 | a call succeeds if and only if it sets a first config with a positive age, or adds the one account of a validated and vouched claim; the new state is stated in full |
| `Effects.InstructionExact` | programs/webproof/src/verification.rs:66-80 | an instruction succeeds if and only if it succeeds by itself and every call it makes takes effect in turn |
| `Effects.CommitExact` | programs/webproof/src/lib.rs:21-97 | a transaction commits with a state if and only if its instructions lead there, no refusal among them; otherwise it changes nothing |
| `Effects.InitializeExact` | programs/webproof/src/lib.rs:25-37 | on every chain state the SDK's initialise transaction is refused as already in use, refused for its age, or sets exactly that config |
| `Effects.SubmissionOutcome` | programs/webproof/src/lib.rs:39-72 | on every chain state a submission behind a passing Ed25519 instruction stores what the verdict says or is refused with its reason |
| `History.AppendOnly` | programs/webproof/src/lib.rs:77-89 | across every run the config, once set, and every stored account stay as they are |
| `History.ConfigInvariant` | programs/webproof/src/lib.rs:30-36 | in every reachable state the maximum age is positive, and nothing is stored without a config |
| `History.EveryAccountIsBorn` | programs/webproof/src/lib.rs:44-72 | every stored account was created by one call of one committed transaction that passed every check and whose Ed25519 instruction passed natively |
| `History.BornOnce` | programs/webproof/src/lib.rs:89 | an account appears in one transaction only |
| `History.ReachableInvariant` | programs/webproof/src/lib.rs:44-70 | each account sits at its own id and holds the record of a claim that hashes to that id, has issuedAt < expiresAt and validated at the time of creation: within expiry, skew and maximum age, or, when the maximum is i64::MAX, past an age that saturates |
| `History.OneInstructionOneClaim` | programs/webproof/src/verification.rs:98-101 | submissions accepted against equal Ed25519 instruction data carry the same claim and are the same account |
| `History.OneAccountPerSubmission` | programs/webproof/src/lib.rs:87-90 | accepted submissions and stored accounts correspond one to one; no id is accepted twice |
| `History.ExecFrame` | programs/webproof/src/lib.rs:84-97 | instructions that do not submit an id neither notice nor disturb the account there |
| `Sdk.WriteLE` | sdk/typescript/src/index.ts:52-57 | the in-place writer fills a buffer with the little-endian octets of its value |
| `Sdk.StringBuffer` | sdk/typescript/src/index.ts:49-54 | length prefix and UTF-8 octets, or a range error |
| `Sdk.I64Buffer` | sdk/typescript/src/index.ts:55-59 | two's complement little endian, or a range error |
| `Sdk.EncodersAgree` | sdk/typescript/src/index.ts:65-77 | the TypeScript encoder throws exactly when the value is no claim Rust can serialise, and otherwise equals Rust octet for octet |
| `Sdk.EncoderErrors` | sdk/typescript/src/index.ts:49-77 | which error the encoder throws, on every value: that of the first field that cannot be written |
| `AccountReader.Reader.Bytes` | sdk/typescript/src/index.ts:151-156 | returns and consumes exactly n octets, or throws and consumes none; the offset stays within the buffer |
| `AccountReader.Reader.String` | sdk/typescript/src/index.ts:157-160 | reads one framed string with replacement, or throws; the offset stays within the buffer |
| `AccountReader.Reader.I64` | sdk/typescript/src/index.ts:161-163 | reads one signed integer, or throws; the offset stays within the buffer |
| `AccountReader.Reader.U8` | sdk/typescript/src/index.ts:164-166 | reads one octet, or throws; the offset stays within the buffer |
| `AccountReader.DecodeAccount` | sdk/typescript/src/index.ts:175-194 | field by field through the reader, the result or error of decoding the record layout after the discriminator |
| `AccountReader.DecodeBody` | sdk/typescript/src/index.ts:181-193 | the eleven fields in order, ending with the offset within the buffer |
| `AccountReader.RecordRoundTrip` | sdk/typescript/src/index.ts:174-194 | a flushed record followed by any padding decodes to itself |
| `AccountReader.AccountReads` | sdk/typescript/src/index.ts:174-194 | a stored account, with its zero padding, decodes to the record it holds |
| `AccountReader.ReadExact` | sdk/typescript/src/index.ts:148-194 | the reader accepts exactly the buffers that start with the discriminator and some field values of the layout, and throws on all others with a fixed reason |
| `AccountReader.ReadFaithful` | sdk/typescript/src/index.ts:148-194 | on every accepted buffer the result re-encodes to exactly the consumed prefix if and only if its three string fields are well-formed UTF-8 |
| `Client.DispatchReads` | sdk/typescript/src/index.ts:284-288 | the on-chain decoder reads back the claim and id the SDK wrote |
| `Client.InitReads` | sdk/typescript/src/index.ts:234-253 | the on-chain decoder reads back the key and maximum age the SDK wrote |
| `Client.PairBuilds` | sdk/typescript/src/index.ts:270-301 | the SDK builds the instruction pair for every well-sized claim; the message length fits a u16 |
| `Client.PairExact` | sdk/typescript/src/index.ts:268-301 | for any arguments, when the pair is built, both its instructions, and which error is thrown otherwise |
| `Client.SubmissionComplete` | sdk/typescript/src/index.ts:268-301 | a transaction that has the pair at any position, among other succeeding instructions that do not submit that id later, commits, does what they do and stores the claim |
| `Client.StoredReadsBack` | sdk/typescript/src/index.ts:320-323 | decoding a stored account, padding included, returns every stored field of the claim, the submitter and the time |
| `Client.EveryAccountReads` | sdk/typescript/src/index.ts:318-323 | in every reachable state every stored account decodes, field by field, to the call, claim, signer and time it was born from |
| `Json.RenderSpells` | crates/webproof-verifier/src/lib.rs:118-124 | a string renders as itself, a number as printed, booleans and null as their words, arrays and objects not at all |
| `Json.LookupExact` | crates/webproof-verifier/src/lib.rs:117 | a lookup finds a value if and only if the document is that value nested in places that answer to the keys in order |
| `Json.UnescapeIsRead` | crates/webproof-verifier/src/lib.rs:117 | the two replacing passes read any token as one pass from the left does |
| `Json.PointerExact` | crates/webproof-verifier/src/lib.rs:117 | on every document and every text the evaluator finds exactly what section 4 of RFC 6901 says |
| `Json.PointerMeaning` | crates/webproof-verifier/src/lib.rs:117 | the pointer written for any list of keys, escapes and all, finds exactly what those keys lead to in the nested document |
| `Json.IndexExact` | crates/webproof-verifier/src/lib.rs:117 | array indices are exactly the decimal notations of 64-bit numbers |
| `Json.DottedMeaning` | crates/tlsn-demo/demo/src/lib.rs:96-104 | a dotted name of keys free of '.' and '/' finds exactly what those keys, read as tokens, lead to |
| `Json.DottedPlainMeaning` | crates/tlsn-demo/demo/src/lib.rs:96-104 | for keys also free of '~' the dotted name finds exactly what the keys themselves lead to |
| `Json.UnescapeFixes` | crates/tlsn-demo/demo/src/lib.rs:96-104 | a key is taken literally exactly when it contains neither "~0" nor "~1" |
| `Json.NormalizeIdempotent` | crates/tlsn-demo/demo/src/lib.rs:98-104 | normalising twice is normalising once, and the result starts with '/' |
| `Json.NormalizeFixes` | crates/tlsn-demo/demo/src/lib.rs:98-104 | exactly the fields that start with '/' are returned as they are; in all others each '.' becomes '/' after a leading '/' |
| `Ranges.RangeSet.DifferenceMut` | crates/tlsn-demo/webproof-tlsn/src/verify.rs:166-167 | in-place difference of range sets |
| `Ranges.InSubtract` | crates/tlsn-demo/webproof-tlsn/src/verify.rs:166-167 | difference removes exactly the positions of the other set |
| `Ranges.IsSubset` | crates/tlsn-demo/webproof-tlsn/src/verify.rs:162-169 | true exactly when every candidate position is authenticated |
| `Disclosure.BuildPresentation` | crates/tlsn-demo/webproof-tlsn/src/present.rs:22-44 | the ranges accumulated over the header loop, and the whole response |
| `Disclosure.SecretExact` | crates/tlsn-demo/webproof-tlsn/src/present.rs:18-33 | the test on lower-cased names finds exactly the casings of authorization, cookie and proxy-authorization |
| `Disclosure.DisclosureExact` | crates/tlsn-demo/webproof-tlsn/src/present.rs:27-38 | a request position is revealed if and only if it is in the request, not in its body and not in the value of one of those three headers |
| `Disclosure.SecretsStayHidden` | crates/tlsn-demo/webproof-tlsn/src/present.rs:18-38 | no octet of the value of an authorization, cookie or proxy-authorization header is revealed, in any casing of its name |
| `Disclosure.OtherHeadersShow` | crates/tlsn-demo/webproof-tlsn/src/present.rs:31-38 | every octet of the value of any other header is revealed |
| `Disclosure.ApiKeyShows` | crates/tlsn-demo/webproof-tlsn/src/present.rs:18-38 | a concrete request whose `x-api-key` value is revealed |
| `Disclosure.DisclosureCovers` | crates/tlsn-demo/webproof-tlsn/src/present.rs:27-38 | the revealed positions cover the whole request line |
| `Disclosure.GatesPass` | crates/tlsn-demo/webproof-tlsn/src/verify.rs:122-151 | on a transcript revealed by the prover neither coverage gate refuses, and verification succeeds exactly when the response parses and has a JSON body |
| `Presentations.VerifyExact` | crates/tlsn-demo/webproof-tlsn/src/verify.rs:91-159 | verification yields data if and only if a trusted notary's presentation proves it and every octet of request line and response is authenticated |
| `Presentations.PresentationRefusals` | crates/tlsn-demo/webproof-tlsn/src/verify.rs:91-120 | for each error before the transcript is read, exactly the presentation that yields it |
| `Presentations.TranscriptRefusals` | crates/tlsn-demo/webproof-tlsn/src/verify.rs:122-151 | for each error of parsing and coverage, exactly the transcript that yields it |
| `Presentations.UnauthenticatedOctetsIgnored` | crates/tlsn-demo/webproof-tlsn/src/verify.rs:122-151 | transcripts that agree on the authenticated octets and verify yield the same path and document, whatever the other octets are, if the parsers read the positions they report |
| `Signer.SignExact` | crates/webproof-verifier/src/lib.rs:105-146 | exactly when a claim is signed, and every field of what is signed; the value is what the JSON scalar found at the pointer spells, and the key is a non-empty pointer |
| `Signer.SignRefusals` | crates/webproof-verifier/src/lib.rs:114-124 | the host and the field error, exactly when each is given |
| `Signer.ClaimRefusals` | crates/webproof-verifier/src/lib.rs:126-137 | once host and value are found, which claim error is given and when; version, expiry, future and age never are |
| `Signer.TlsnRefusal` | crates/webproof-verifier/src/lib.rs:101-103 | signing fails with the TLSNotary error if and only if the artifact proves nothing, and otherwise depends on what it proves |
| `Signer.AcceptanceWindow` | crates/webproof-verifier/src/lib.rs:126-137 | a claim signed at t passes the chain's checks at t' if and only if t-30 <= t' <= t+min(ttl, max age), in unbounded integers |
| `Doubles.ToDoubleFixes` | sdk/typescript/src/index.ts:128-129 | a time survives as a JavaScript number exactly when it is a multiple of the double spacing at its size; all up to 2^53 do |
| `Doubles.FirstLostTime` | sdk/typescript/src/index.ts:128-129 | every time of magnitude up to 2^53 survives; 2^53 + 1 does not |
| `Doubles.RepresentableExact` | sdk/typescript/src/index.ts:128-129 | the integers that survive are exactly those with at most 53 significant bits |
| `Doubles.ToDoubleNearest` | sdk/typescript/src/index.ts:128-129 | any integer is read as a double that no other is closer to, ties to the even one |
| `SignedFile.ParseExact` | sdk/typescript/src/index.ts:114-144 | on every file, parsing returns a claim if and only if the file spells that claim and states its hash; signature and key are passed on unchanged |
| `SignedFile.TamperingShows` | sdk/typescript/src/index.ts:135-137 | a file that states the id of a claim parses to that claim or throws, whatever else was edited, barring a collision |
| `SignedFile.NoSilentSubstitution` | sdk/typescript/src/index.ts:114-144 | parsing a signer's file throws or returns exactly the signed claim, and returns exactly when both times survive |
| `SignedFile.SignerFilesParse` | crates/webproof-verifier/src/lib.rs:138-146 | every file the signer can emit parses if and only if the signing time and the saturated expiry survive, and then to the signed claim, signature, public key and claim id |
| `Pipeline.EndToEndProvenance` | crates/webproof-verifier/src/lib.rs:101-146 | every stored account traces to one verified presentation through one earlier signing, and its value is what the JSON scalar at its key spells there |
| `Pipeline.HonestHistory` | sdk/typescript/src/index.ts:255-323 | configuring the signer's key, signing and submitting in time is an unforged history after which the claim is stored, so the hypotheses of provenance can be met |
| `Pipeline.DirectDelivery` | sdk/typescript/src/index.ts:303-323 | on every chain state the transaction built from a signed claim commits if and only if the signer's key is configured, the id is free and the clock is in the acceptance window, and then reads back as signed |
| `Pipeline.SignedClaimDelivers` | sdk/typescript/src/index.ts:114-144 | from the signer's file the SDK builds a transaction if and only if both times survive as JavaScript numbers, and that transaction is delivered as above |
| `Pipeline.IdNotSquatted` | programs/webproof/src/lib.rs:46-53 | if the id of a signed claim is taken, then, unless SHA-256 collides on the two claims, what is stored there reads back as the signed claim |
| `Core.BuildSigningMessage` | crates/webproof-core/src/lib.rs:50-56 | the accumulating form yields domain separator then canonical bytes |
| `Golden.GoldenVector` | test-vectors/claim-v1.hex:1 | the canonical bytes of the shared golden claim |

## Left out

- MPC-TLS notarisation, sockets and the in-process notary: asynchronous I/O over libraries that are not part of the repository.
- The insides of SHA-256, Ed25519, certificate checking and presentation cryptography: parameters, with hypotheses stated where used.
- HTTP and JSON text parsing: the model starts from parsed positions and a JSON tree, and a number is the text it prints as.
- Program-derived addresses, bumps, rent, lamports and account lists: accounts are keyed by claim id, bumps are a parameter, and callers pass the accounts the constraints demand.
- The config account's octets: the config is kept as a record, since nothing reads its layout back.
- Solana's transaction size limit and compute budget: they only restrict which transactions are sent.
- TypeScript values outside their types: claim versions outside 0..255, times in a file that are not integers, and ill-formed UTF-16 strings, where `Buffer.from` is lossy.
- Commands, environment and key-format parsing, RPC calls and demo binaries: plumbing around the operations modelled here.
