/** The submission state machine of `App` (src/App.jsx:21-93): the form's configuration, the
    selected file, the loading flag and the append-only list of results, and what one press of
    the submit button does to them. The network round trip is one atomic step whose outcome is
    an input; alerts are returned as text instead of being shown. */
module Submission {
  import opened Wrappers
  import opened JsStrings
  import opened FileNames
  import Truncate

  // ---------------------------------------------------------------------------------------
  // Configuration

  /** The sample rates offered by the select box, in Hz. */
  type SampleRate = r: int | r in {8000, 11025, 12000, 16000, 22050, 24000, 32000, 44100, 48000}
    witness 48000

  /** The bitrates offered by the select box, in kbps. */
  type Bitrate = b: int | b in {64, 96, 128, 160, 192, 256, 320} witness 192

  datatype Channel = Stereo | Mono

  /** A selected audio file; only its name matters to this model. */
  datatype SourceFile = SourceFile(name: JsString)

  datatype Config = Config(
    loudness: real,        // target loudness, LUFS
    peak: real,            // true-peak ceiling, dBTP
    sampleRate: SampleRate,
    bitrate: Bitrate,
    channel: Channel,
    prefix: JsString,
    suffix: JsString)

  /** The initial values of the form's fields. */
  const DefaultConfig: Config := Config(-15.0, -2.0, 48000, 192, Stereo, [], [])

  // ---------------------------------------------------------------------------------------
  // Results

  /** A value of a result's JSON fields. */
  datatype Value = Missing | Text(text: JsString) | Number(num: real)

  /** A JavaScript object, by key. */
  type Record = map<JsString, Value>

  /** `obj[key]`: undefined when the key is absent. */
  function Lookup(obj: Record, key: JsString): Value {
    if key in obj then obj[key] else Missing
  }

  /** JavaScript truthiness: undefined, the empty string and zero are false. */
  predicate Truthy(v: Value) {
    match v
    case Missing => false
    case Text(t) => t != []
    case Number(n) => n != 0.0
  }

  const FileNameKey: JsString := Units("fileName")
  const FileBase64Key: JsString := Units("fileBase64")

  /** `{ ...info, fileName: name, fileBase64: file }`: the processor's fields, then the two
      fields of the client, which win over fields of the same name. An absent `file` leaves
      `fileBase64` present but undefined. */
  function ResultRow(info: Record, name: JsString, file: Option<JsString>): (row: Record)
    ensures row.Keys == info.Keys + {FileNameKey, FileBase64Key}
    ensures row[FileNameKey] == Text(name)
    ensures row[FileBase64Key] == if file.Some? then Text(file.value) else Missing
    ensures forall k | k in info && k != FileNameKey && k != FileBase64Key :: row[k] == info[k]
  {
    info[FileNameKey := Text(name)][FileBase64Key := if file.Some? then Text(file.value) else Missing]
  }

  // ---------------------------------------------------------------------------------------
  // Session

  datatype Session = Session(
    file: Option<SourceFile>,
    config: Config,
    loading: bool,
    results: seq<Record>)

  const InitialSession: Session := Session(None, DefaultConfig, false, [])

  /** What is sent: the file as the `audio` form field, and the five query parameters. */
  datatype Request = Request(
    audio: SourceFile,
    loudness: real,
    peak: real,
    sampleRate: SampleRate,
    bitrate: Bitrate,
    channel: Channel)

  function RequestFor(file: SourceFile, c: Config): Request {
    Request(file, c.loudness, c.peak, c.sampleRate, c.bitrate, c.channel)
  }

  /** How the round trip ends. */
  datatype Response =
    | Thrown(message: JsString)               // `fetch` or `res.json()` rejected with this message
    | NotOk(detail: Option<JsString>)         // a non-2xx status; the body's `message`, if any
    | Ok(info: Record, file: Option<JsString>) // the body's `info` object and `file` payload

  /** One step of the machine: the new session, the request it sent, the alert it showed. */
  datatype Transition = Transition(session: Session, request: Option<Request>, alert: Option<JsString>)

  // ---------------------------------------------------------------------------------------
  // Messages

  const MissingFileAlert: JsString := Units("ファイルを選択してください")
  const FfmpegPrefix: JsString := Units("FFmpegエラー: ")
  const GenericFailure: JsString := Units("ラウドネス処理中に不明なエラーが発生しました")
  const FetchFailure: JsString := Units("Failed to fetch")
  const ConnectivityAlert: JsString := Units("サーバーに接続できません。サーバーが起動しているか確認してください。")
  const ErrorPrefix: JsString := Units("エラーが発生しました: ")

  /** `errorData.message ? … : …`: the body carries a (truthy) message. */
  predicate CarriesMessage(detail: Option<JsString>) {
    detail.Some? && detail.value != []
  }

  /** The message of the error the `try` block ends with when the response is not a success:
      the rejection's own message, or the one thrown for a non-OK status, which quotes the
      server's message when it is a non-empty string. */
  function ThrownMessage(resp: Response): (m: JsString)
    requires !resp.Ok?
    ensures resp.Thrown? ==> m == resp.message
    ensures resp.NotOk? && CarriesMessage(resp.detail) ==> m == FfmpegPrefix + resp.detail.value
    ensures resp.NotOk? && !CarriesMessage(resp.detail) ==> m == GenericFailure
  {
    match resp
    case Thrown(message) => message
    case NotOk(detail) =>
      if CarriesMessage(detail) then FfmpegPrefix + detail.value else GenericFailure
  }

  /** The alert of the `catch` block: the connectivity alert exactly for the messages that
      mention "Failed to fetch", and every other message after the generic error prefix. */
  function CaughtAlert(message: JsString): (alert: JsString)
    ensures alert == ConnectivityAlert <==> Includes(message, FetchFailure)
    ensures !Includes(message, FetchFailure) ==> alert == ErrorPrefix + message
  {
    if Includes(message, FetchFailure) then ConnectivityAlert
    else
      var alert := ErrorPrefix + message;
      assert alert[0] == ErrorPrefix[0] != ConnectivityAlert[0];
      alert
  }

  // ---------------------------------------------------------------------------------------
  // Transitions

  /** Lines 38-52: without a file, only the alert; with one, the loading flag goes up and the
      request is sent. Only reachable while not loading, as the button is disabled meanwhile. */
  function Begin(st: Session): (t: Transition)
    requires !st.loading
    ensures t.session.results == st.results && t.session.file == st.file && t.session.config == st.config
    ensures t.request.Some? <==> st.file.Some?
    ensures t.request.Some? ==>
      (t.session.loading && t.alert.None? && t.request.value.audio == st.file.value)
    ensures t.request.None? ==> t.session == st && t.alert == Some(MissingFileAlert)
  {
    match st.file
    case None => Transition(st, None, Some(MissingFileAlert))
    case Some(f) => Transition(st.(loading := true), Some(RequestFor(f, st.config)), None)
  }

  /** Lines 54-92: the response of the request in flight settles it. A success appends one
      row named after the file; any failure becomes an alert. The `finally` lowers the flag
      on every path. */
  function Settle(st: Session, resp: Response): (t: Transition)
    requires st.loading && st.file.Some?
    ensures !t.session.loading && t.request.None?
    ensures t.session.file == st.file && t.session.config == st.config
    ensures resp.Ok? ==>
      (t.alert.None? && |t.session.results| == |st.results| + 1
       && t.session.results[..|st.results|] == st.results)
    ensures !resp.Ok? ==> t.alert.Some? && t.session.results == st.results
  {
    var idle := st.(loading := false);
    match resp
    case Ok(info, file) =>
      var name := DisplayName(st.file.value.name, st.config.prefix, st.config.suffix);
      Transition(idle.(results := st.results + [ResultRow(info, name, file)]), None, None)
    case _ =>
      Transition(idle, None, Some(CaughtAlert(ThrownMessage(resp))))
  }

  /** `handleSubmit`, from the press of the button to the end of the `finally` block. */
  function Submit(st: Session, resp: Response): (t: Transition)
    requires !st.loading
    ensures !t.session.loading
    ensures t.session.file == st.file && t.session.config == st.config
    ensures t.request.Some? <==> st.file.Some?
    ensures t.request.Some? ==> t.request.value == RequestFor(st.file.value, st.config)
    ensures st.results <= t.session.results
    ensures |t.session.results| == |st.results| + (if st.file.Some? && resp.Ok? then 1 else 0)
    ensures t.alert.None? <==> st.file.Some? && resp.Ok?
  {
    var begun := Begin(st);
    if begun.request.None? then begun
    else
      var settled := Settle(begun.session, resp);
      Transition(settled.session, begun.request, settled.alert)
  }

  /** Without a file nothing is sent and nothing changes; the user is asked to pick one. */
  lemma SubmitWithoutFile(st: Session, resp: Response)
    requires !st.loading && st.file.None?
    ensures Submit(st, resp) == Transition(st, None, Some(MissingFileAlert))
  {
  }

  /** A success appends exactly one row at the end, holding the processor's fields, the
      display name under `fileName` and the payload under `fileBase64`; earlier rows stay. */
  lemma SubmitSuccess(st: Session, info: Record, file: Option<JsString>)
    requires !st.loading && st.file.Some?
    ensures var rs := Submit(st, Ok(info, file)).session.results;
      && rs[..|st.results|] == st.results
      && var row := rs[|st.results|];
      && row[FileNameKey] == Text(DisplayName(st.file.value.name, st.config.prefix, st.config.suffix))
      && row[FileBase64Key] == (if file.Some? then Text(file.value) else Missing)
      && forall k | k in info && k != FileNameKey && k != FileBase64Key :: k in row && row[k] == info[k]
  {
  }

  /** Any failure leaves the results alone and shows the alert of the error thrown. */
  lemma SubmitFailure(st: Session, resp: Response)
    requires !st.loading && st.file.Some? && !resp.Ok?
    ensures Submit(st, resp).session == st
    ensures Submit(st, resp).alert == Some(CaughtAlert(ThrownMessage(resp)))
  {
  }

  /** The alert for each kind of failure: a rejection is a connectivity problem exactly when
      its message says "Failed to fetch"; a server message is quoted after "FFmpegエラー: ";
      a non-OK status without one gets the generic text. A server message that itself
      contains "Failed to fetch" is reported as a connectivity problem. */
  lemma FailureAlerts(st: Session, resp: Response)
    requires !st.loading && st.file.Some? && !resp.Ok?
    ensures var alert := Submit(st, resp).alert.value;
      && (resp.Thrown? ==> (alert == ConnectivityAlert <==> Includes(resp.message, FetchFailure)))
      && (resp.Thrown? && !Includes(resp.message, FetchFailure) ==> alert == ErrorPrefix + resp.message)
      && (resp.NotOk? && !CarriesMessage(resp.detail) ==> alert == ErrorPrefix + GenericFailure)
      && (resp.NotOk? && CarriesMessage(resp.detail) ==>
           if Includes(resp.detail.value, FetchFailure) then alert == ConnectivityAlert
           else alert == ErrorPrefix + FfmpegPrefix + resp.detail.value)
  {
    if resp.NotOk? {
      if CarriesMessage(resp.detail) {
        if Includes(resp.detail.value, FetchFailure) {
          IncludesAfterPrefix(FfmpegPrefix, resp.detail.value, FetchFailure);
        } else {
          FfmpegPrefixAddsNoFetchFailure(resp.detail.value);
        }
      } else {
        GenericFailureIsNotConnectivity();
      }
    }
  }

  /** Wrapping a server message in `FFmpegエラー: ` cannot create a "Failed to fetch": the
      prefix's only `F`s are followed by `F` and `m`, not by `a`. */
  lemma FfmpegPrefixAddsNoFetchFailure(d: JsString)
    requires !Includes(d, FetchFailure)
    ensures !Includes(FfmpegPrefix + d, FetchFailure)
  {
    var s := FfmpegPrefix + d;
    var n := |FfmpegPrefix|;
    forall i | 0 <= i <= |s| - |FetchFailure|
      ensures !OccursAt(s, FetchFailure, i)
    {
      if i >= n {
        assert s[i..i + |FetchFailure|] == d[i - n..i - n + |FetchFailure|];
        assert !OccursAt(d, FetchFailure, i - n);
      } else {
        assert s[i..i + |FetchFailure|][0] == s[i] == FfmpegPrefix[i];
        assert s[i..i + |FetchFailure|][1] == s[i + 1];
        assert i < 2 ==> s[i + 1] == FfmpegPrefix[i + 1];
      }
    }
  }

  /** The generic failure text is all Japanese, so it never contains "Failed to fetch". */
  lemma GenericFailureIsNotConnectivity()
    ensures !Includes(GenericFailure, FetchFailure)
  {
    assert forall i | 0 <= i < |GenericFailure| :: GenericFailure[i] > 127;
    NotIncludedWithoutFirstUnit(GenericFailure, FetchFailure);
  }

  // ---------------------------------------------------------------------------------------
  // Editing the form

  datatype Edit =
    | ChooseFile(choice: Option<SourceFile>)
    | SetLoudness(loudness: real)
    | SetPeak(peak: real)
    | SetSampleRate(rate: SampleRate)
    | SetBitrate(kbps: Bitrate)
    | SetChannel(channel: Channel)
    | SetPrefix(prefix: JsString)
    | SetSuffix(suffix: JsString)

  /** The `onChange` handlers of the form's inputs. Only the file input is disabled while
      loading; a cancelled file dialog clears the selection. */
  function ApplyEdit(st: Session, e: Edit): (r: Session)
    requires e.ChooseFile? ==> !st.loading
    ensures r.loading == st.loading && r.results == st.results
    ensures !e.ChooseFile? ==> r.file == st.file
    ensures e.SetLoudness? ==> r.config == st.config.(loudness := e.loudness)
    ensures e.SetPeak? ==> r.config == st.config.(peak := e.peak)
    ensures e.SetSampleRate? ==> r.config == st.config.(sampleRate := e.rate)
    ensures e.SetBitrate? ==> r.config == st.config.(bitrate := e.kbps)
    ensures e.SetChannel? ==> r.config == st.config.(channel := e.channel)
    ensures e.SetPrefix? ==> r.config == st.config.(prefix := e.prefix)
    ensures e.SetSuffix? ==> r.config == st.config.(suffix := e.suffix)
    ensures e.ChooseFile? ==> r.file == e.choice && r.config == st.config
  {
    match e
    case ChooseFile(choice) => st.(file := choice)
    case SetLoudness(v) => st.(config := st.config.(loudness := v))
    case SetPeak(v) => st.(config := st.config.(peak := v))
    case SetSampleRate(v) => st.(config := st.config.(sampleRate := v))
    case SetBitrate(v) => st.(config := st.config.(bitrate := v))
    case SetChannel(v) => st.(config := st.config.(channel := v))
    case SetPrefix(v) => st.(config := st.config.(prefix := v))
    case SetSuffix(v) => st.(config := st.config.(suffix := v))
  }

  // ---------------------------------------------------------------------------------------
  // Sessions over time

  /** What the user does while the page is idle: edit a field, or press submit and get
      the given response. */
  datatype Event = UserEdit(edit: Edit) | UserSubmit(response: Response)

  function Step(st: Session, ev: Event): (r: Session)
    requires !st.loading
    ensures !r.loading && st.results <= r.results
  {
    match ev
    case UserEdit(e) => ApplyEdit(st, e)
    case UserSubmit(resp) => Submit(st, resp).session
  }

  /** The session after a sequence of events. */
  function Run(st: Session, evs: seq<Event>): (r: Session)
    requires !st.loading
    ensures !r.loading
    ensures st.results <= r.results
    ensures |r.results| <= |st.results| + |evs|
    decreases |evs|
  {
    if evs == [] then st
    else
      var next := Step(st, evs[0]);
      assert |next.results| <= |st.results| + 1;
      Run(next, evs[1..])
  }

  /** A row as the success path builds it: a display name ending in `.mp3` under `fileName`,
      and a string or nothing under `fileBase64`. */
  ghost predicate RowWellFormed(row: Record) {
    && FileNameKey in row && row[FileNameKey].Text?
    && (var name := row[FileNameKey].text;
        |name| >= |Mp3| && name[|name| - |Mp3|..] == Mp3)
    && FileBase64Key in row && !row[FileBase64Key].Number?
  }

  ghost predicate WellFormed(st: Session) {
    forall i | 0 <= i < |st.results| :: RowWellFormed(st.results[i])
  }

  /** Every session the page can reach from its initial state by edits and submissions has
      only well-formed rows, is not loading, and extends the results of every earlier one. */
  lemma {:induction false} RunWellFormed(st: Session, evs: seq<Event>)
    requires !st.loading && WellFormed(st)
    ensures WellFormed(Run(st, evs))
    decreases |evs|
  {
    if evs != [] {
      var next := Step(st, evs[0]);
      assert WellFormed(next) by {
        if evs[0].UserSubmit? && st.file.Some? && evs[0].response.Ok? {
          var resp := evs[0].response;
          SubmitSuccess(st, resp.info, resp.file);
          assert next.results == st.results + [next.results[|st.results|]];
        }
      }
      RunWellFormed(next, evs[1..]);
    }
  }

  /** The label a row shows in the table (line 246) and the label of the selected file
      (line 142): the name cut to at most 30 units. */
  function Label(name: JsString): (r: JsString)
    ensures r == Truncate.TruncateMiddle(name, 30)
    ensures |r| <= 30
    ensures |name| <= Truncate.EffectiveLimit(name, 30) ==> r == name
  {
    Truncate.ClampedAgrees(name, 30);
    Truncate.TruncateMiddleClamped(name, 30)
  }

  /** Labels are stable: a label shown again is unchanged. */
  lemma LabelIdempotent(name: JsString)
    ensures Label(Label(name)) == Label(name)
  {
    Truncate.ClampedAgrees(name, 30);
    Truncate.ClampedAgrees(Label(name), 30);
    Truncate.TruncateIdempotent(name, 30);
  }
}
