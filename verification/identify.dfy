/**
 * The `/identify` handler of main.py with its I/O made explicit: the transcoded sample, the
 * frozen Unix timestamp, the signing primitive and the fingerprint service are parameters.
 */
module Identify {
  import opened Base
  import opened Text
  import opened Signing
  import opened Matches

  /** The request body: where to fetch the audio and the service credentials. */
  datatype AudioRequest = AudioRequest(audioUrl: string, accessKey: string, accessSecret: string)

  /** The single multipart POST sent to the fingerprint service. */
  datatype Submission = Submission(url: string, form: Form, sample: seq<byte>)

  /** The fingerprint service: what it answers for a submission, already parsed. */
  type Service = Submission -> Response

  /**
   * Signing and form building for one request: the sample goes to the fixed upload URL with
   * a form whose `sample_bytes` is the sample's length and whose signature the service will
   * accept. Fails exactly when a credential is not ASCII.
   */
  function Envelope(req: AudioRequest, sample: seq<byte>, timestamp: nat, sign: Signer): (r: Result<Submission, SignError>)
    ensures r.Err? <==> !IsAscii(req.accessKey) || !IsAscii(req.accessSecret)
    ensures r.Ok? ==> r.value.url == UploadUrl && r.value.sample == sample
    ensures r.Ok? ==> r.value.form.sampleBytes == |r.value.sample|
    ensures r.Ok? ==> r.value.form.accessKey == req.accessKey
    ensures r.Ok? ==> Authentic(r.value.form, req.accessSecret, sign)
    ensures r.Ok? ==> AllDigits(r.value.form.timestamp) && ValueOf(r.value.form.timestamp) == timestamp
    ensures r.Ok? ==> BuildForm(Credentials(req.accessKey, req.accessSecret), |sample|, timestamp, sign) == Ok(r.value.form)
    ensures r.Ok? ==> r.value.form.signature == sign(req.accessSecret, StringToSign(req.accessKey, timestamp))
    ensures r.Ok? ==> r.value.form.dataType == DataType && r.value.form.signatureVersion == SignatureVersion
    ensures r.Ok? ==> r.value.form.region == Region
  {
    match BuildForm(Credentials(req.accessKey, req.accessSecret), |sample|, timestamp, sign)
    case Err(e) => Err(e)
    case Ok(form) => Ok(Submission(UploadUrl, form, sample))
  }

  /**
   * The handler after download and transcoding: sign, post once, normalise the answer.
   * A signing failure aborts before anything is posted; otherwise the reply echoes exactly
   * what the service answered to the one submission built for this request.
   */
  function Identify(req: AudioRequest, sample: seq<byte>, timestamp: nat, sign: Signer, service: Service)
    : (r: Result<Reply, SignError>)
    ensures r.Err? <==> !IsAscii(req.accessKey) || !IsAscii(req.accessSecret)
    ensures r.Ok? ==>
      (Envelope(req, sample, timestamp, sign).Ok? && r.value.raw == service(Envelope(req, sample, timestamp, sign).value))
    ensures r.Ok? ==> r.value == Normalize(r.value.raw)
    ensures r.Ok? ==> (r.value.status == Matched <==> |r.value.data| > 0)
  {
    match Envelope(req, sample, timestamp, sign)
    case Err(e) => Err(e)
    case Ok(sub) => Ok(Normalize(service(sub)))
  }
}
