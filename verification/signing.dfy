/**
 * The signed upload of main.py (lines 57-89): the canonical string-to-sign of the
 * fingerprint service, its signature, and the multipart form fields sent with the sample.
 */
module Signing {
  import opened Base
  import opened Text

  const Host := "identify-ap-southeast-1.acrcloud.com"
  const HttpMethod := "POST"
  const HttpUri := "/v1/identify"
  const DataType := "audio"
  const SignatureVersion := "1"
  /** The region selector is pinned, never taken from the caller. */
  const Region := "IN"
  /** The upload target, spelled out on its own rather than built from the signed URI. */
  const UploadUrl := "https://" + Host + "/v1/identify"

  /** HMAC-SHA1 keyed by the secret over the message, base64-encoded. Library cryptography, left abstract. */
  type Signer = (string, string) -> string

  /** The caller's credentials for the fingerprint service. */
  datatype Credentials = Credentials(accessKey: string, accessSecret: string)

  /** The form fields posted next to the sample file. */
  datatype Form = Form(
    accessKey: string,
    sampleBytes: nat,
    timestamp: string,
    signature: string,
    dataType: string,
    signatureVersion: string,
    region: string)

  /** `str.encode('ascii')` raised on a key or secret holding a non-ASCII character. */
  datatype SignError = NonAsciiCredential

  /** The six lines of the canonical string, in the order the service expects them. */
  function SignedFields(accessKey: string, timestamp: nat): seq<string> {
    [HttpMethod, HttpUri, accessKey, DataType, SignatureVersion, Decimal(timestamp)]
  }

  /**
   * The string to sign, exactly as main.py spells it out: method, URI, access key, data type,
   * signature version and the truncated Unix timestamp, separated by newlines.
   */
  function StringToSign(accessKey: string, timestamp: nat): (msg: string)
    ensures msg == Join(SignedFields(accessKey, timestamp), "\n")
    ensures '\n' !in accessKey ==> Split(msg, "\n") == SignedFields(accessKey, timestamp)
    ensures IsAscii(msg) <==> IsAscii(accessKey)
  {
    var msg := HttpMethod + "\n" + HttpUri + "\n" + accessKey + "\n" + DataType + "\n"
      + SignatureVersion + "\n" + Decimal(timestamp);
    JoinSignedFields(accessKey, timestamp);
    SplitsIntoFields(accessKey, timestamp);
    AsciiMessage(accessKey, timestamp);
    msg
  }

  lemma SplitsIntoFields(accessKey: string, timestamp: nat)
    ensures '\n' !in accessKey ==>
      Split(HttpMethod + "\n" + HttpUri + "\n" + accessKey + "\n" + DataType + "\n"
        + SignatureVersion + "\n" + Decimal(timestamp), "\n") == SignedFields(accessKey, timestamp)
  {
    JoinSignedFields(accessKey, timestamp);
    if '\n' !in accessKey {
      FieldsFreeOfNewline(accessKey, timestamp);
      SplitJoin(SignedFields(accessKey, timestamp), "\n");
    }
  }

  lemma JoinSignedFields(accessKey: string, timestamp: nat)
    ensures Join(SignedFields(accessKey, timestamp), "\n")
      == HttpMethod + "\n" + HttpUri + "\n" + accessKey + "\n" + DataType + "\n"
         + SignatureVersion + "\n" + Decimal(timestamp)
  {
    var f := SignedFields(accessKey, timestamp);
    JoinCons(f, "\n");
    JoinCons(f[1..], "\n");
    JoinCons(f[2..], "\n");
    JoinCons(f[3..], "\n");
    JoinCons(f[4..], "\n");
    assert f[5..] == [Decimal(timestamp)];
  }

  lemma FieldsFreeOfNewline(accessKey: string, timestamp: nat)
    requires '\n' !in accessKey
    ensures forall i :: 0 <= i < 6 ==> "\n"[0] !in SignedFields(accessKey, timestamp)[i]
  {
    var d := Decimal(timestamp);
    assert forall j :: 0 <= j < |d| ==> d[j] != '\n';
  }

  lemma AsciiMessage(accessKey: string, timestamp: nat)
    ensures var msg := HttpMethod + "\n" + HttpUri + "\n" + accessKey + "\n" + DataType + "\n"
      + SignatureVersion + "\n" + Decimal(timestamp);
      IsAscii(msg) <==> IsAscii(accessKey)
  {
    var p := HttpMethod + "\n" + HttpUri + "\n";
    var m := "\n" + DataType + "\n" + SignatureVersion + "\n";
    var msg := p + accessKey + m + Decimal(timestamp);
    assert msg == HttpMethod + "\n" + HttpUri + "\n" + accessKey + "\n" + DataType + "\n"
      + SignatureVersion + "\n" + Decimal(timestamp);
    assert IsAscii(p) && IsAscii(m);
    if IsAscii(msg) {
      forall i | 0 <= i < |accessKey| ensures accessKey[i] as int < 128 {
        assert msg[|p| + i] == accessKey[i];
      }
    }
  }

  /** What follows the method and URI lines: key, data type, signature version and timestamp lines. */
  function Tail(k: string, d: string): string {
    k + "\n" + DataType + "\n" + SignatureVersion + "\n" + d
  }

  /** In a tail, the newline just before the timestamp is the last newline. */
  lemma LastNewline(k: string, d: string)
    requires AllDigits(d)
    ensures |Tail(k, d)| >= |d| + 1
    ensures Tail(k, d)[|Tail(k, d)| - |d| - 1] == '\n'
    ensures forall j :: |Tail(k, d)| - |d| <= j < |Tail(k, d)| ==> Tail(k, d)[j] != '\n'
  {
    var s := Tail(k, d);
    forall j | |s| - |d| <= j < |s| ensures s[j] != '\n' {
      assert s[j] == d[j - (|s| - |d|)];
    }
  }

  /** A tail determines its key and its timestamp numeral. */
  lemma TailInjective(k1: string, d1: string, k2: string, d2: string)
    requires AllDigits(d1) && AllDigits(d2) && Tail(k1, d1) == Tail(k2, d2)
    ensures k1 == k2 && d1 == d2
  {
    var s := Tail(k1, d1);
    LastNewline(k1, d1);
    LastNewline(k2, d2);
    var n := |s|;
    assert s[n - |d1| - 1] == '\n' && s[n - |d2| - 1] == '\n';
    assert |d1| == |d2|;
    assert d1 == s[n - |d1|..] == d2;
    assert k1 == s[..|k1|] && k2 == s[..|k2|];
  }

  /**
   * Different (access key, timestamp) pairs give different strings to sign, so a fresh
   * timestamp always yields a message that has to be signed anew.
   */
  lemma StringToSignInjective(k1: string, t1: nat, k2: string, t2: nat)
    requires StringToSign(k1, t1) == StringToSign(k2, t2)
    ensures k1 == k2 && t1 == t2
  {
    var p := HttpMethod + "\n" + HttpUri + "\n";
    var d1, d2 := Decimal(t1), Decimal(t2);
    StringToSignShape(k1, t1);
    StringToSignShape(k2, t2);
    var tail1, tail2 := Tail(k1, d1), Tail(k2, d2);
    assert tail1 == (p + tail1)[|p|..];
    assert tail2 == (p + tail2)[|p|..];
    TailInjective(k1, d1, k2, d2);
    DecimalInjective(t1, t2);
  }

  /** The string to sign is the method and URI lines followed by the tail. */
  lemma StringToSignShape(k: string, t: nat)
    ensures StringToSign(k, t) == HttpMethod + "\n" + HttpUri + "\n" + Tail(k, Decimal(t))
  {
    var d := Decimal(t);
    assert HttpMethod + "\n" + HttpUri + "\n" + k + "\n" + DataType + "\n" + SignatureVersion + "\n" + d
      == (HttpMethod + "\n" + HttpUri + "\n") + (k + "\n" + DataType + "\n" + SignatureVersion + "\n" + d);
  }

  /**
   * The string the fingerprint service rebuilds from the submitted fields to check the
   * signature: the same six lines, taken from the form instead of from the sender.
   */
  function ServerCanonical(form: Form): string {
    Join([HttpMethod, HttpUri, form.accessKey, form.dataType, form.signatureVersion, form.timestamp], "\n")
  }

  /** The form's signature matches the one the service computes from the form's own fields. */
  predicate Authentic(form: Form, accessSecret: string, sign: Signer) {
    form.signature == sign(accessSecret, ServerCanonical(form))
  }

  /**
   * Signing step and form construction of main.py. Either credential holding a non-ASCII
   * character makes the ASCII encoding raise; otherwise the form carries the caller's key,
   * the sample's byte count, the very timestamp that was signed, the signature over the
   * string to sign, and the fixed data type, signature version and region.
   */
  function BuildForm(creds: Credentials, sampleBytes: nat, timestamp: nat, sign: Signer): (r: Result<Form, SignError>)
    ensures r.Err? <==> !IsAscii(creds.accessKey) || !IsAscii(creds.accessSecret)
    ensures r.Ok? ==> Authentic(r.value, creds.accessSecret, sign)
    ensures r.Ok? ==> r.value.signature == sign(creds.accessSecret, StringToSign(creds.accessKey, timestamp))
    ensures r.Ok? ==> r.value.accessKey == creds.accessKey && r.value.sampleBytes == sampleBytes
    ensures r.Ok? ==> r.value.timestamp == Decimal(timestamp) && ValueOf(r.value.timestamp) == timestamp
    ensures r.Ok? ==> r.value.dataType == DataType && r.value.signatureVersion == SignatureVersion
    ensures r.Ok? ==> r.value.region == Region
  {
    var msg := StringToSign(creds.accessKey, timestamp);
    if !IsAscii(creds.accessSecret) || !IsAscii(msg) then
      Err(NonAsciiCredential)
    else
      var form := Form(creds.accessKey, sampleBytes, Decimal(timestamp), sign(creds.accessSecret, msg),
        DataType, SignatureVersion, Region);
      JoinSignedFields(creds.accessKey, timestamp);
      assert ServerCanonical(form) == Join(SignedFields(creds.accessKey, timestamp), "\n");
      DecimalRoundTrip(timestamp);
      Ok(form)
  }

  /** The signed URI is the path the sample is posted to. */
  lemma UploadTargetsSignedUri()
    ensures UploadUrl[|UploadUrl| - |HttpUri|..] == HttpUri
  {
  }
}
