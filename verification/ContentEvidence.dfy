/** Bounded evidence about the content channel of an Ollama stream, and the two checks it must pass. */
module ContentEvidence {
  import opened Wrappers
  import opened Utf8

  const MAX_FRAGMENT_BYTES: nat := 4096

  /** The parts the model leaves open: the secret patterns, their redaction, and SHA-256. */
  datatype Policy = Policy(isSecret: string -> bool, redact: string -> string, sha256: seq<Byte> -> string) {

    /** Substitution changes nothing when the pattern occurs nowhere. */
    ghost predicate Coherent() {
      forall s :: !isSecret(s) ==> redact(s) == s
    }
  }

  datatype Fragment = Fragment(
    contentSha256: Option<string>,
    textByteLength: nat,
    textSha256: string,
    text: string,
    redacted: bool,
    truncated: bool)

  datatype Diagnostic = Diagnostic(
    frameIndex: nat,
    done: bool,
    thinkingByteLength: nat,
    contentByteLength: nat,
    thinkingPresent: bool,
    contentPresent: bool,
    bothNonempty: bool,
    fragment: Fragment)

  // ----- One fragment -------------------------------------------------------------------------

  /** The retained text: everything, or the longest whole-character prefix that leaves room for three dots. */
  function Retained(sanitized: string): string {
    if |Encode(sanitized)| > MAX_FRAGMENT_BYTES then sanitized[..Fitting(sanitized, MAX_FRAGMENT_BYTES - 3)] + "..."
    else sanitized
  }

  function FragmentOf(content: string, policy: Policy): Fragment {
    var sanitized := policy.redact(content);
    var text := Retained(sanitized);
    Fragment(
      if policy.isSecret(content) then None else Some(policy.sha256(Encode(content))),
      |Encode(text)|,
      policy.sha256(Encode(text)),
      text,
      policy.isSecret(content),
      |Encode(sanitized)| > MAX_FRAGMENT_BYTES)
  }

  lemma EncodeDots(s: string)
    ensures |Encode(s + "...")| == |Encode(s)| + 3
  {
    EncodeConcat(s, "...");
    assert "..."[1..] == "..";
    assert ".."[1..] == ".";
    assert "."[1..] == "";
  }

  /**
   * Truncation keeps as many whole characters as fit: the retained text is between 4093 and 4096 bytes long,
   * and one more character of the original would have made the kept part exceed its 4093 bytes.
   */
  lemma TruncatedFragment(content: string, policy: Policy)
    requires FragmentOf(content, policy).truncated
    ensures var f := FragmentOf(content, policy);
            var sanitized := policy.redact(content);
            && 4093 <= f.textByteLength <= 4096
            && exists k | 0 <= k < |sanitized| ::
                 && f.text == sanitized[..k] + "..."
                 && |Encode(sanitized[..k])| <= 4093 < |Encode(sanitized[..k + 1])|
  {
    var sanitized := policy.redact(content);
    var k := Fitting(sanitized, 4093);
    FittingWaste(sanitized, 4093);
    EncodeDots(sanitized[..k]);
    assert sanitized[..|sanitized|] == sanitized;
    FittingLongest(sanitized, 4093, |sanitized|);
    FittingLongest(sanitized, 4093, k + 1);
  }

  /** _bounded_content_fragment: cut to the byte bound, then drop bytes until the rest decodes. */
  method BoundedContentFragment(content: string, policy: Policy) returns (f: Fragment, ghost backOff: nat)
    ensures f == FragmentOf(content, policy)
    ensures backOff <= 3
  {
    var secretShaped := policy.isSecret(content);
    var sanitized := policy.redact(content);
    var raw := Encode(sanitized);
    var truncated := |raw| > MAX_FRAGMENT_BYTES;
    var text: string;
    backOff := 0;
    if truncated {
      ghost var k := Fitting(sanitized, MAX_FRAGMENT_BYTES - 3);
      ghost var boundary := |Encode(sanitized[..k])|;
      FittingWaste(sanitized, MAX_FRAGMENT_BYTES - 3);
      raw := raw[..MAX_FRAGMENT_BYTES - 3];
      while Decode(raw).None?
        invariant |raw| == MAX_FRAGMENT_BYTES - 3 - backOff && raw == Encode(sanitized)[..|raw|]
        invariant boundary <= |raw|
        decreases |raw|
      {
        CutStep(sanitized, |raw|, k);
        raw := raw[..|raw| - 1];
        backOff := backOff + 1;
      }
      CutStep(sanitized, |raw|, k);
      text := Decode(raw).value + "...";
    } else {
      text := sanitized;
    }
    var retained := Encode(text);
    f := Fragment(
      if secretShaped then None else Some(policy.sha256(Encode(content))),
      |retained|, policy.sha256(retained), text, secretShaped, truncated);
  }

  /** Between the kept boundary and the byte bound nothing decodes; at the boundary the kept text does. */
  lemma CutStep(s: string, cut: nat, k: nat)
    requires MAX_FRAGMENT_BYTES - 3 < |Encode(s)|
    requires cut <= MAX_FRAGMENT_BYTES - 3 && k == Fitting(s, MAX_FRAGMENT_BYTES - 3) && |Encode(s[..k])| <= cut
    ensures Decode(Encode(s)[..cut]) == if |Encode(s[..k])| == cut then Some(s[..k]) else None
  {
    FittingLongest(s, cut, k);
    var j := Fitting(s, cut);
    FittingLongest(s, cut, j);
    FittingLongest(s, MAX_FRAGMENT_BYTES - 3, j);
    DecodeCut(s, cut);
  }

  // ----- One frame ----------------------------------------------------------------------------

  datatype Inconsistency =
    | OriginalLength
    | RetainedLength
    | RetainedHash
    | TextNotExact
    | OriginalHash
    | NotReconstructed
    | AggregateHash

  /** _validate_content_frame_diagnostic, the first inconsistency it reports. */
  function CheckDiagnostic(d: Diagnostic, original: string, policy: Policy): Option<Inconsistency> {
    var f := d.fragment;
    var retained := Encode(f.text);
    if d.contentByteLength != |Encode(original)| then Some(OriginalLength)
    else if f.textByteLength != |retained| then Some(RetainedLength)
    else if f.textSha256 != policy.sha256(retained) then Some(RetainedHash)
    else if f.redacted || f.truncated then None
    else if f.text != original then Some(TextNotExact)
    else if f.contentSha256 != Some(policy.sha256(Encode(original))) then Some(OriginalHash)
    else None
  }

  function DiagnosticOf(index: nat, done: bool, thinking: string, content: string, policy: Policy): Diagnostic {
    Diagnostic(index, done, |Encode(thinking)|, |Encode(content)|, thinking != [], content != [],
               thinking != [] && content != [], FragmentOf(content, policy))
  }

  /** A diagnostic built from the content it describes always passes its own check. */
  lemma DiagnosticConsistent(index: nat, done: bool, thinking: string, content: string, policy: Policy)
    requires policy.Coherent()
    ensures CheckDiagnostic(DiagnosticOf(index, done, thinking, content, policy), content, policy) == None
  {
  }

  /** _content_frame_diagnostic: build the diagnostic, then check it. */
  method ContentFrameDiagnostic(index: nat, done: bool, thinking: string, content: string, policy: Policy)
    returns (r: Result<Diagnostic, Inconsistency>)
    requires policy.Coherent()
    ensures r == Ok(DiagnosticOf(index, done, thinking, content, policy))
  {
    var bounded, _ := BoundedContentFragment(content, policy);
    var diagnostic := Diagnostic(index, done, |Encode(thinking)|, |Encode(content)|, thinking != [], content != [],
                                 thinking != [] && content != [], bounded);
    DiagnosticConsistent(index, done, thinking, content, policy);
    var inconsistency := CheckDiagnostic(diagnostic, content, policy);
    match inconsistency {
      case Some(cause) => return Err(cause);
      case None => return Ok(diagnostic);
    }
  }

  // ----- All retained fragments ---------------------------------------------------------------

  predicate Verbatim(d: Diagnostic) {
    d.contentPresent ==> !d.fragment.redacted && !d.fragment.truncated
  }

  /** The content texts the diagnostics retain, in order. */
  function RetainedText(ds: seq<Diagnostic>): string {
    if ds == [] then []
    else
      var last := ds[|ds| - 1];
      RetainedText(ds[..|ds| - 1]) + (if last.contentPresent then last.fragment.text else [])
  }

  /** _validate_content_fragment_aggregate: exact fragments must reconstruct the final content. */
  method CheckAggregate(finalContent: string, ds: seq<Diagnostic>, diagnosticsTruncated: bool, policy: Policy)
    returns (r: Option<Inconsistency>)
    ensures r.Some?
       <==> !diagnosticsTruncated && (forall i | 0 <= i < |ds| :: Verbatim(ds[i])) && RetainedText(ds) != finalContent
  {
    if diagnosticsTruncated {
      return None;
    }
    var parts: string := [];
    for i := 0 to |ds|
      invariant parts == RetainedText(ds[..i])
      invariant forall j | 0 <= j < i :: Verbatim(ds[j])
    {
      assert ds[..i + 1][..i] == ds[..i];
      if ds[i].contentPresent {
        if ds[i].fragment.redacted || ds[i].fragment.truncated {
          return None;
        }
        parts := parts + ds[i].fragment.text;
      }
    }
    assert ds[..|ds|] == ds;
    if parts != finalContent {
      return Some(NotReconstructed);
    }
    if policy.sha256(Encode(parts)) != policy.sha256(Encode(finalContent)) {
      return Some(AggregateHash);
    }
    return None;
  }
}
