/**
 * Response normalisation of main.py (lines 97-124): the status check, the Spotify filter
 * over `music` then `custom_files`, the per-match output record and the overall verdict.
 */
module Matches {
  import opened Base
  import opened Text
  import opened Clock

  /** One entry of `metadata.music` or `metadata.custom_files`, already parsed. An absent `artists` list is empty. */
  datatype Candidate = Candidate(
    title: Option<string>,
    artists: seq<string>,
    playOffsetMs: Option<int>,
    spotifyId: Option<string>,
    isrc: Option<string>,
    score: Option<int>)

  /** The `metadata` object as far as it is read: each category may be missing. */
  datatype Metadata = Metadata(
    music: Option<seq<Candidate>>,
    customFiles: Option<seq<Candidate>>)

  /** The parsed upstream reply. `statusCode` is None when `status` or `status.code` is missing. */
  datatype Response = Response(statusCode: Option<int>, metadata: Option<Metadata>)

  /** One element of the reply's `data` list. */
  datatype MatchRecord = MatchRecord(
    title: Option<string>,
    artist: string,
    timestampMatch: string,
    spotifyId: string,
    isrc: Option<string>,
    score: Option<int>)

  datatype Verdict = Matched | NoMatch

  /** The handler's reply: verdict, kept matches, and the upstream response passed through. */
  datatype Reply = Reply(status: Verdict, data: seq<MatchRecord>, raw: Response)

  /** The candidate's Spotify track id is present and truthy, i.e. a non-empty string. */
  predicate HasSpotify(c: Candidate) {
    c.spotifyId.Some? && c.spotifyId.value != ""
  }

  /** `music` followed by `custom_files`, a missing metadata object or category contributing nothing. */
  function Candidates(resp: Response): seq<Candidate> {
    var md := resp.metadata.GetOr(Metadata(None, None));
    md.music.GetOr([]) + md.customFiles.GetOr([])
  }

  /** The output record for a kept candidate (main.py lines 112-119). */
  function ToRecord(c: Candidate): MatchRecord
    requires HasSpotify(c)
  {
    MatchRecord(c.title, Join(c.artists, ", "), "[" + FormatMs(c.playOffsetMs) + "]", c.spotifyId.value, c.isrc, c.score)
  }

  /**
   * What a kept record says about its candidate: title, ISRC and score copied; the id that
   * passed the filter; the artist names recoverable, in source order, from the ", "-joined
   * text; and a bracketed `mm:ss` reading of the play offset's second within the hour.
   */
  lemma ToRecordFaithful(c: Candidate)
    requires HasSpotify(c)
    ensures var r := ToRecord(c);
      && r.title == c.title && r.isrc == c.isrc && r.score == c.score
      && r.spotifyId == c.spotifyId.value && r.spotifyId != ""
      && r.artist == Join(c.artists, ", ")
      && (c.artists == [] ==> r.artist == "")
      && (|c.artists| >= 1 && (forall i :: 0 <= i < |c.artists| ==> ',' !in c.artists[i]) ==>
            Split(r.artist, ", ") == c.artists)
      && r.timestampMatch == "[" + FormatMs(c.playOffsetMs) + "]"
      && |r.timestampMatch| == 7 && r.timestampMatch[0] == '[' && r.timestampMatch[6] == ']'
      && ClockSeconds(r.timestampMatch[1..6]) == Some(SecondOfHour(c.playOffsetMs))
  {
    var r := ToRecord(c);
    assert r.timestampMatch[1..6] == FormatMs(c.playOffsetMs);
    FormatMsReadsBack(c.playOffsetMs);
    ArtistsRoundTrip(c.artists);
  }

  lemma ArtistsRoundTrip(names: seq<string>)
    ensures |names| >= 1 && (forall i :: 0 <= i < |names| ==> ',' !in names[i]) ==>
      Split(Join(names, ", "), ", ") == names
  {
    if |names| >= 1 && (forall i :: 0 <= i < |names| ==> ',' !in names[i]) {
      SplitJoin(names, ", ");
    }
  }

  /** The filter-and-map loop: records for the candidates with a Spotify id, in candidate order. */
  function KeepSpotify(cs: seq<Candidate>): (out: seq<MatchRecord>)
    ensures |out| <= |cs|
    ensures |out| == 0 <==> forall i :: 0 <= i < |cs| ==> !HasSpotify(cs[i])
    decreases |cs|
  {
    if |cs| == 0 then []
    else
      var rest := KeepSpotify(cs[1..]);
      var head := if HasSpotify(cs[0]) then [ToRecord(cs[0])] else [];
      assert forall i :: 0 <= i < |cs[1..]| ==> cs[1..][i] == cs[i + 1];
      head + rest
  }

  /** Filtering a concatenation filters each part and concatenates the results. */
  lemma {:induction false} KeepSpotifyAppend(a: seq<Candidate>, b: seq<Candidate>)
    ensures KeepSpotify(a + b) == KeepSpotify(a) + KeepSpotify(b)
    decreases |a|
  {
    if |a| > 0 {
      assert (a + b)[1..] == a[1..] + b;
      assert (a + b)[0] == a[0];
      var head := if HasSpotify(a[0]) then [ToRecord(a[0])] else [];
      assert KeepSpotify(a + b) == head + KeepSpotify(a[1..] + b);
      assert KeepSpotify(a) == head + KeepSpotify(a[1..]);
      KeepSpotifyAppend(a[1..], b);
    } else {
      assert a + b == b;
    }
  }

  /**
   * The Python loop as written: walk the candidates, append a record for each one with a
   * Spotify id. It builds exactly the reference filter.
   */
  method CollectMatches(candidates: seq<Candidate>) returns (finalMatches: seq<MatchRecord>)
    ensures finalMatches == KeepSpotify(candidates)
  {
    finalMatches := [];
    for i := 0 to |candidates|
      invariant finalMatches == KeepSpotify(candidates[..i])
    {
      var m := candidates[i];
      assert candidates[..i + 1] == candidates[..i] + [m];
      KeepSpotifyAppend(candidates[..i], [m]);
      if HasSpotify(m) {
        finalMatches := finalMatches + [ToRecord(m)];
      }
    }
    assert candidates[..|candidates|] == candidates;
  }

  /** Every index shifted up by one. */
  function Shift(xs: seq<int>): (ys: seq<int>)
    ensures |ys| == |xs| && forall j :: 0 <= j < |xs| ==> ys[j] == xs[j] + 1
  {
    seq(|xs|, j requires 0 <= j < |xs| => xs[j] + 1)
  }

  /** `idx` lists, in increasing order, exactly the positions of `cs` holding a Spotify id. */
  ghost predicate IsSpotifySelection(cs: seq<Candidate>, idx: seq<int>) {
    && Within(idx, 0, |cs|)
    && Increasing(idx)
    && (forall i :: 0 <= i < |cs| ==> (HasSpotify(cs[i]) <==> i in idx))
  }

  /** Every element lies in [lo, hi). */
  ghost predicate Within(xs: seq<int>, lo: int, hi: int) {
    forall j :: 0 <= j < |xs| ==> lo <= xs[j] < hi
  }

  /** Strictly increasing. */
  ghost predicate Increasing(xs: seq<int>) {
    forall j, k :: 0 <= j < k < |xs| ==> xs[j] < xs[k]
  }

  lemma ShiftOrdered(xs: seq<int>, n: int)
    requires Within(xs, 0, n) && Increasing(xs)
    ensures Within(Shift(xs), 1, n + 1) && Increasing(Shift(xs))
  {
  }

  lemma PrependZero(head: seq<int>, tail: seq<int>, n: int)
    requires head == [] || head == [0]
    requires Within(tail, 1, n) && Increasing(tail) && n >= 1
    ensures Within(head + tail, 0, n) && Increasing(head + tail)
  {
    var xs := head + tail;
    forall j, k | 0 <= j < k < |xs| ensures xs[j] < xs[k] {
      if j < |head| {
        assert xs[j] == 0 && xs[k] == tail[k - |head|];
      } else {
        assert xs[j] == tail[j - |head|] && xs[k] == tail[k - |head|];
      }
    }
  }

  /** The positions of the Spotify-bearing candidates, left to right. */
  ghost function SpotifyIndices(cs: seq<Candidate>): seq<int>
    decreases |cs|
  {
    if |cs| == 0 then []
    else (if HasSpotify(cs[0]) then [0] else []) + Shift(SpotifyIndices(cs[1..]))
  }

  lemma ShiftMember(xs: seq<int>, i: int)
    ensures i in Shift(xs) <==> i - 1 in xs
  {
    var ys := Shift(xs);
    if i - 1 in xs {
      var j :| 0 <= j < |xs| && xs[j] == i - 1;
      assert ys[j] == i;
    }
    if i in ys {
      var j :| 0 <= j < |ys| && ys[j] == i;
      assert xs[j] == i - 1;
    }
  }

  /** The index list is increasing, in range, and holds exactly the Spotify-bearing positions. */
  lemma {:induction false} SpotifyIndicesSelect(cs: seq<Candidate>)
    ensures IsSpotifySelection(cs, SpotifyIndices(cs))
    decreases |cs|
  {
    if |cs| > 0 {
      SpotifyIndicesSelect(cs[1..]);
      IndicesOrdered(cs);
      forall i | 0 <= i < |cs| ensures HasSpotify(cs[i]) <==> i in SpotifyIndices(cs) {
        MemberAt(cs, i);
      }
    }
  }

  /** One step of the induction above: prepending a position keeps the list increasing and in range. */
  lemma IndicesOrdered(cs: seq<Candidate>)
    requires |cs| > 0
    requires IsSpotifySelection(cs[1..], SpotifyIndices(cs[1..]))
    ensures Within(SpotifyIndices(cs), 0, |cs|) && Increasing(SpotifyIndices(cs))
  {
    var inner := SpotifyIndices(cs[1..]);
    var head := if HasSpotify(cs[0]) then [0] else [];
    ShiftOrdered(inner, |cs| - 1);
    PrependZero(head, Shift(inner), |cs|);
    assert SpotifyIndices(cs) == head + Shift(inner);
  }

  /** One step of the induction above: position i of a non-empty candidate list. */
  lemma MemberAt(cs: seq<Candidate>, i: int)
    requires 0 <= i < |cs|
    requires IsSpotifySelection(cs[1..], SpotifyIndices(cs[1..]))
    ensures HasSpotify(cs[i]) <==> i in SpotifyIndices(cs)
  {
    var inner := SpotifyIndices(cs[1..]);
    var head := if HasSpotify(cs[0]) then [0] else [];
    assert SpotifyIndices(cs) == head + Shift(inner);
    ShiftMember(inner, i);
    if i > 0 {
      assert cs[i] == cs[1..][i - 1];
    } else {
      ShiftOrdered(inner, |cs| - 1);
    }
  }

  /** The j-th kept record is the record of the candidate at the j-th listed position. */
  lemma {:induction false} SpotifyIndicesRecords(cs: seq<Candidate>)
    ensures |SpotifyIndices(cs)| == |KeepSpotify(cs)|
    ensures forall j :: 0 <= j < |KeepSpotify(cs)| ==>
      0 <= SpotifyIndices(cs)[j] < |cs| && HasSpotify(cs[SpotifyIndices(cs)[j]])
      && KeepSpotify(cs)[j] == ToRecord(cs[SpotifyIndices(cs)[j]])
    decreases |cs|, 1
  {
    if |cs| > 0 {
      SpotifyIndicesRecords(cs[1..]);
      forall j | 0 <= j < |KeepSpotify(cs)|
        ensures 0 <= SpotifyIndices(cs)[j] < |cs| && HasSpotify(cs[SpotifyIndices(cs)[j]])
          && KeepSpotify(cs)[j] == ToRecord(cs[SpotifyIndices(cs)[j]])
      {
        RecordAt(cs, j);
      }
    }
  }

  /** One step of the induction above: position j of a non-empty candidate list. */
  lemma {:induction false} RecordAt(cs: seq<Candidate>, j: int)
    requires |cs| > 0
    requires |SpotifyIndices(cs[1..])| == |KeepSpotify(cs[1..])|
    requires forall k :: 0 <= k < |KeepSpotify(cs[1..])| ==>
      0 <= SpotifyIndices(cs[1..])[k] < |cs[1..]| && HasSpotify(cs[1..][SpotifyIndices(cs[1..])[k]])
      && KeepSpotify(cs[1..])[k] == ToRecord(cs[1..][SpotifyIndices(cs[1..])[k]])
    requires 0 <= j < |KeepSpotify(cs)|
    ensures |SpotifyIndices(cs)| == |KeepSpotify(cs)|
    ensures 0 <= SpotifyIndices(cs)[j] < |cs| && HasSpotify(cs[SpotifyIndices(cs)[j]])
      && KeepSpotify(cs)[j] == ToRecord(cs[SpotifyIndices(cs)[j]])
  {
    var rest := cs[1..];
    var inner := SpotifyIndices(rest);
    var restOut := KeepSpotify(rest);
    var h := if HasSpotify(cs[0]) then 1 else 0;
    var idx := (if HasSpotify(cs[0]) then [0] else []) + Shift(inner);
    var out := (if HasSpotify(cs[0]) then [ToRecord(cs[0])] else []) + restOut;
    assert idx == SpotifyIndices(cs);
    assert out == KeepSpotify(cs);
    if j < h {
      assert idx[j] == 0 && out[j] == ToRecord(cs[0]);
    } else {
      var k := j - h;
      assert out[j] == restOut[k];
      assert idx[j] == inner[k] + 1;
      assert cs[idx[j]] == rest[inner[k]];
    }
  }

  /**
   * The filter keeps exactly the Spotify-bearing candidates, in their original relative order,
   * each mapped to its record: nothing reordered, dropped, duplicated or invented.
   */
  lemma KeepSpotifySelects(cs: seq<Candidate>)
    ensures exists idx ::
      && IsSpotifySelection(cs, idx)
      && |idx| == |KeepSpotify(cs)|
      && forall j :: 0 <= j < |idx| ==>
           0 <= idx[j] < |cs| && HasSpotify(cs[idx[j]]) && KeepSpotify(cs)[j] == ToRecord(cs[idx[j]])
  {
    SpotifyIndicesSelect(cs);
    SpotifyIndicesRecords(cs);
    var idx := SpotifyIndices(cs);
    assert IsSpotifySelection(cs, idx);
  }

  /**
   * Status check, filter and verdict of main.py. A status code other than 0, or none at all,
   * yields "no_match" with no data; otherwise the Spotify-bearing candidates are kept, and the
   * verdict is "matched" only when at least one was kept. The raw response is passed through.
   */
  function Normalize(resp: Response): (r: Reply)
    ensures r.raw == resp
    ensures resp.statusCode != Some(0) ==> r.status == NoMatch && r.data == []
    ensures r.status == Matched <==> |r.data| > 0
    ensures r.status == Matched <==>
      resp.statusCode == Some(0) && exists i :: 0 <= i < |Candidates(resp)| && HasSpotify(Candidates(resp)[i])
    ensures |r.data| <= |Candidates(resp)|
  {
    if resp.statusCode == Some(0) then
      var data := KeepSpotify(Candidates(resp));
      Reply(if |data| > 0 then Matched else NoMatch, data, resp)
    else
      Reply(NoMatch, [], resp)
  }

  /** On success the data is the music matches followed by the custom-file matches. */
  lemma NormalizeMusicThenCustom(resp: Response)
    requires resp.statusCode == Some(0) && resp.metadata.Some?
    ensures Normalize(resp).data
      == KeepSpotify(resp.metadata.value.music.GetOr([])) + KeepSpotify(resp.metadata.value.customFiles.GetOr([]))
  {
    KeepSpotifyAppend(resp.metadata.value.music.GetOr([]), resp.metadata.value.customFiles.GetOr([]));
  }
}
