# audio-detect identification handler, modelled in Dafny

The service has one endpoint, `POST /identify`. It downloads an audio file, compresses it, and
posts it to the ACRCloud fingerprint service as a signed request. It then turns the service's
answer into a list of Spotify-bearing matches. This project models the deterministic parts of
that handler in `main.py`:

- `format_ms` renders a millisecond offset as a zero-padded `mm:ss` reading.
- The signed upload builds the canonical string-to-sign and the multipart form fields sent
  with the sample.
- Response normalisation does four things:
  - checks `status.code`;
  - concatenates `music` and `custom_files`;
  - keeps, in order, the candidates with a truthy Spotify track id, and maps each one to an
    output record;
  - decides between "matched" and "no_match".

Modules:

- `Base` — `Option`, `Result` and `byte`.
- `Text` — Python's `str(n)` for non-negative integers, `sep.join`, `str.split`, and their
  round trips.
- `Clock` — `format_ms`.
- `Signing` — the string to sign and the form fields. It also gives the service-side
  rebuild of the canonical string from the form, which is what a signature is checked against.
- `Matches` — the parsed response, the filter/map and the verdict.
- `Identify` — the handler after download and transcoding. The I/O it depends on is passed in
  as parameters:
  - the transcoded sample is a `seq<byte>`;
  - the frozen timestamp is a `nat`;
  - HMAC-SHA1 followed by base64 is a function value `Signer`;
  - the fingerprint service is a function from the submission to its parsed response.

The model follows what `main.py` actually does, which is narrower than one might expect from
a track-identification service:

- The handler does not sort by score.
- It computes no overlap percentage and no score-band classification.
- It reads only the `music` and `custom_files` categories of the response.
- It outputs only `title`, `artist`, `timestamp_match`, `spotify_id`, `isrc` and `score`.
- It drops every candidate without a Spotify id.
- It answers "matched" only when at least one candidate was kept. A success code with no
  Spotify-bearing candidate gives "no_match".

## Model

| member | source | states |
|---|---|---|
| Text.Decimal | main.py:66 | `str(int(timestamp))` is a non-empty ASCII string of digits. It has no leading zero, and it is one character long exactly for values below 10. |
| Text.DecimalRoundTrip | main.py:82 | Reading the timestamp numeral back gives the number that was rendered. |
| Text.SplitJoin | main.py:114 | The pieces come back from a separator-joined text, in order, when no piece contains the separator's first character. |
| Clock.Pad2 | main.py:136 | `{n:02d}` for n below 100 gives exactly two digits that read back as n. |
| Clock.FormatMs | main.py:132-136 | The reading is always 5 characters, with ':' at index 2 and two-digit fields on either side. Both fields are below 60. |
| Clock.FormatMsZero | main.py:133 | An absent (None) or zero offset reads "00:00". |
| Clock.FormatMsReadsBack | main.py:134-136 | Parsing the `mm:ss` reading back as minutes*60+seconds gives the offset's whole second within the hour, `(ms div 1000) mod 3600`. An absent offset gives 0. |
| Clock.FormatMsSameIff | main.py:134-136 | Two offsets render the same if and only if they fall on the same second of the hour. |
| Clock.FormatMsHourly | main.py:134-135 | Minutes and seconds both wrap, so adding one hour to an offset does not change its reading. |
| Clock.FormatMsNinetySeconds | main.py:132-136 | 90000 ms reads "01:30". |
| Clock.FormatMsFullHour | main.py:134-136 | 3600000 ms wraps to "00:00". |
| Signing.StringToSign | main.py:60-66 | For every key, the signed string is the six fields POST, /v1/identify, the access key, audio, 1 and the decimal timestamp, joined by newlines in that order. When the key has no newline, splitting on newlines gives exactly those six fields back. The string is ASCII exactly when the key is. |
| Signing.StringToSignInjective | main.py:64-66 | Two different (access key, timestamp) pairs never give the same string to sign, so a new timestamp always means a newly signed message. |
| Signing.BuildForm | main.py:64-87 | The signing step fails exactly when the key or the secret is not ASCII. Otherwise the form has these fields: <br>• `access_key`: the caller's key. <br>• `sample_bytes`: the given size. <br>• `timestamp`: `str()` of the very timestamp that was signed. <br>• `signature`: Sign(secret, string to sign). <br>• `data_type`, `signature_version` and `region`: "audio", "1" and "IN". <br>The service accepts the signature when it rebuilds the canonical string from these form fields. |
| Signing.UploadTargetsSignedUri | main.py:89 | The upload URL, whose path is spelled as its own literal, ends in the URI that was signed at line 61. |
| Matches.ToRecordFaithful | main.py:112-119 | A kept record has these fields: <br>• `title`, `isrc` and `score`: copied. <br>• `spotify_id`: the non-empty id that passed the filter. <br>• `artist`: exactly the names joined by ", " in source order, for every list of names. Splitting it gives the names back (when no name has a comma), and no artists give "". <br>• `timestamp_match`: exactly `"[" + format_ms(play_offset_ms) + "]"`, a bracketed `mm:ss` whose reading is the play offset's second within the hour. |
| Matches.KeepSpotify | main.py:104-110 | The kept list is no longer than the candidate list. It is empty exactly when no candidate has a truthy Spotify id. |
| Matches.KeepSpotifyAppend | main.py:104 | Filtering `music ++ custom_files` is the same as filtering each list and concatenating the results. |
| Matches.CollectMatches | main.py:98-119 | The append loop builds exactly the filtered and mapped list. |
| Matches.KeepSpotifySelects | main.py:104-119 | There is an increasing list of positions that holds exactly the candidates with a Spotify id. The j-th output record is the record of the candidate at the j-th position. Nothing is reordered, dropped, duplicated or added. |
| Matches.Normalize | main.py:97-124 | `raw` is the response unchanged. <br>A missing status code or one other than 0 gives "no_match" with empty data. <br>"matched" holds if and only if the data is non-empty. It also holds if and only if the code is 0 and some candidate in `music ++ custom_files` has a Spotify id. |
| Matches.NormalizeMusicThenCustom | main.py:102-104 | On success, the data is the kept `music` matches followed by the kept `custom_files` matches. |
| Identify.Envelope | main.py:76-89 | The submission goes to the fixed upload URL and carries the sample unchanged. Its `sample_bytes` is the sample's length. The form is exactly the one `BuildForm` makes from the caller's credentials: the caller's key, the signed timestamp, Sign(secret, string to sign), `data_type` "audio", `signature_version` "1" and `region` "IN", and the service accepts its signature. Building it fails exactly when a credential is not ASCII. |
| Identify.Identify | main.py:57-124 | The handler fails exactly when a credential is not ASCII. Otherwise `raw` is what the service answered to the one submission built for the request, and the reply is the normalisation of that answer, so its data is the filtered, mapped records of that response. "matched" holds if and only if the data is non-empty. |

## Left out

- Downloading with `requests.get` and uploading with `requests.post` (main.py:34-37, 89) are network I/O. The model has no download errors or HTTP status errors. The service is a function parameter.
- Transcoding with pydub/FFmpeg (main.py:46-52) is a foreign library doing floating-point signal processing. The compressed sample is a parameter.
- HMAC-SHA1 and base64 (main.py:68-74) are library cryptography. They are the abstract `Signer` parameter. Only the ASCII-encoding failure of the key and the secret is modelled.
- `time.time()` and the float-to-int truncation (main.py:64) are not modelled. The timestamp is a given non-negative integer.
- Temp-file names, `os.path.getsize`, the size printing and the file removal (main.py:28-29, 39-40, 54-55, 93-95, 127-129) are filesystem work and float formatting. `sample_bytes` is taken as the sample's length.
- The progress and error `print`s (main.py:33, 45, 77, 111, 127) are console output with no effect on the reply.
- FastAPI routing, the pydantic schema, the health check, the mapping of exceptions to HTTP 500, and uvicorn startup (main.py:13-23, 126-130, 138-140) are framework plumbing.
- JSON text parsing (main.py:90) is not modelled. The response is an already-parsed datatype with typed fields. These Python failures are not modelled:
  - a `status` or `metadata` that is not an object;
  - a `null` category list;
  - `artists` being JSON `null` on a kept candidate: `m.get('artists', [])` then gives None and the list comprehension raises `TypeError` (main.py:114);
  - a `music` or `custom_files` entry that is not an object, which makes `m.get` raise `AttributeError` (main.py:108);
  - an artist entry without `name`, which raises `KeyError` (main.py:114);
  - an artist `name` that is not a string, which makes `", ".join` raise `TypeError` (main.py:114);
  - `external_metadata`, `spotify` or `track` being JSON `null` or not an object, which raises `AttributeError` (main.py:108). The model's optional Spotify id treats every such candidate as having no id and drops it, where Python would answer HTTP 500;
  - `external_ids` being JSON `null` or not an object on a kept candidate, which raises `AttributeError` (main.py:117). The model only knows an ISRC as present or absent.
- `statusCode` is an integer, so JSON `false` and `0.0` are not modelled. Python's `== 0` also accepts them.
- A Spotify id is modelled as an optional string, and it is truthy when non-empty. Non-string ids such as numbers are not modelled.
- Clock.FormatMs: the float division of main.py:134-135 is modelled as exact integer floor division. The two agree while `ms / 1000` and `ms / 60000` are exact enough in a double, which covers every realistic offset. A float `play_offset_ms` is not modelled.
