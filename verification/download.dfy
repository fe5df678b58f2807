/** `handleDownload` (src/App.jsx:96-111): the stored base64 payload is decoded with `atob`,
    its code units are copied into a byte array, and the bytes are offered as an `audio/mpeg`
    file under the row's display name. `atob` is a parameter: a partial decoder whose output
    units are the decoded bytes (all below 256 for valid input); `None` stands for the
    exception it throws on a payload that is not base64. */
module Download {
  import opened Wrappers
  import opened JsStrings
  import opened Submission

  type Byte = b: int | 0 <= b < 256

  const AudioMpeg: JsString := Units("audio/mpeg")

  /** The file handed to the browser. */
  datatype Artifact = Artifact(name: JsString, mimeType: JsString, bytes: seq<Byte>)

  datatype DownloadResult = Saved(artifact: Artifact) | DecodeFailed

  /** The download button of row `i` is enabled (line 255): nothing is loading and the row's
      payload is a non-empty string. */
  predicate CanDownload(st: Session, i: nat)
    requires i < |st.results|
  {
    !st.loading && Truthy(Lookup(st.results[i], FileBase64Key))
  }

  /** The button of a row added by a success is enabled exactly when the response carried a
      non-empty payload and nothing is loading; while a request is in flight no button is. */
  lemma DownloadButton(st: Session, info: Record, file: Option<JsString>)
    requires !st.loading && st.file.Some?
    ensures var after := Submit(st, Ok(info, file)).session;
      && |st.results| < |after.results|
      && (CanDownload(after, |st.results|) <==> file.Some? && file.value != [])
      && forall i | 0 <= i < |after.results| :: !CanDownload(after.(loading := true), i)
  {
    SubmitSuccess(st, info, file);
  }

  /** Lines 97-102: `byteNumbers[i] = chars.charCodeAt(i)` for every unit, then
      `new Uint8Array(byteNumbers)`, which keeps each number modulo 256. */
  method ToBytes(chars: JsString) returns (bytes: seq<Byte>)
    ensures |bytes| == |chars|
    ensures forall i | 0 <= i < |chars| :: bytes[i] == chars[i] % 256
  {
    var numbers := new int[|chars|];
    var i := 0;
    while i < |chars|
      invariant 0 <= i <= |chars|
      invariant forall j | 0 <= j < i :: numbers[j] == chars[j]
    {
      numbers[i] := chars[i];
      i := i + 1;
    }
    bytes := seq(|chars|, j requires 0 <= j < |chars| reads numbers => numbers[j] % 256);
  }

  /** `handleDownload(base64Data, fileName)`: decode, copy, and offer the file. */
  method SaveArtifact(payload: JsString, fileName: JsString, atob: JsString -> Option<JsString>)
    returns (r: DownloadResult)
    ensures r.DecodeFailed? <==> atob(payload).None?
    ensures r.Saved? ==>
      && r.artifact.name == fileName
      && r.artifact.mimeType == AudioMpeg
      && |r.artifact.bytes| == |atob(payload).value|
      && forall i | 0 <= i < |r.artifact.bytes| :: r.artifact.bytes[i] == atob(payload).value[i] % 256
    // when the decoder keeps its promise that every unit is below 256, the bytes are the units
    ensures r.Saved? && (forall i | 0 <= i < |atob(payload).value| :: atob(payload).value[i] < 256) ==>
      r.artifact.bytes == atob(payload).value
  {
    match atob(payload)
    case None =>
      r := DecodeFailed;
    case Some(chars) =>
      var bytes := ToBytes(chars);
      r := Saved(Artifact(fileName, AudioMpeg, bytes));
  }

  /** The download of row `i` when its button is enabled: the row's payload, saved under the
      row's display name. The session is a value and is not touched, so a payload that fails
      to decode leaves the row in place. */
  method DownloadRow(st: Session, i: nat, atob: JsString -> Option<JsString>) returns (r: DownloadResult)
    requires i < |st.results| && CanDownload(st, i)
    requires RowWellFormed(st.results[i])
    ensures var payload := st.results[i][FileBase64Key].text;
      && (r.DecodeFailed? <==> atob(payload).None?)
      && (r.Saved? ==>
            && r.artifact.name == st.results[i][FileNameKey].text
            && r.artifact.mimeType == AudioMpeg
            && |r.artifact.bytes| == |atob(payload).value|
            && forall j | 0 <= j < |r.artifact.bytes| :: r.artifact.bytes[j] == atob(payload).value[j] % 256)
  {
    var row := st.results[i];
    r := SaveArtifact(row[FileBase64Key].text, row[FileNameKey].text, atob);
  }
}
