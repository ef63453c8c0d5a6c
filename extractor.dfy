/** `extract_metadata`: builds the output record from file-system facts and the tag
    reader's result, absorbs reader failures into an `error` field and falls back to a
    file-system timestamp when no tag gives a date (src/media_meta/extractor.py:57-110). */
module Extractor {
  import opened PyRuntime
  import opened DateNormalizer
  import opened RecordedOn
  import opened IsoFormat

  /** A POSIX timestamp as `os.stat` reports it; it is only passed on. */
  type Timestamp = real

  /** What the file system says about the path. */
  datatype FileFacts = FileFacts(
    found: bool,                   // path.exists()
    path: string,                  // str(Path(filepath))
    resolved: string,              // str(path.resolve())
    name: string,                  // path.name
    size: nat,                     // path.stat().st_size
    mtime: Timestamp,              // path.stat().st_mtime
    birthtime: Option<Timestamp>)  // path.stat().st_birthtime, on platforms that have it

  /** `datetime.datetime.fromtimestamp(ts, tz=datetime.timezone.utc).isoformat()`. */
  type TimestampRenderer = Timestamp -> string

  /** `MutagenFile(path, easy=False)`: a reader object, `None` for an unrecognised
      file, or an exception. */
  type ReaderResult = Outcome<Option<MediaFile>>

  /** A value of the output dictionary. */
  datatype FieldValue = Null | Text(text: string) | Int(number: int) | Float(x: real)

  /** The fields of the output dictionary; `Key` gives the string each is stored under. */
  datatype Field =
    | Filepath | Filename | FileSizeBytes | FileModifiedOn | RecordedOnValue | RecordedOnSource
    | DurationSeconds | SampleRateHz | Channels | BitrateBps | Format | Error

  function Key(f: Field): string {
    match f
    case Filepath => "filepath"
    case Filename => "filename"
    case FileSizeBytes => "file_size_bytes"
    case FileModifiedOn => "file_modified_on"
    case RecordedOnValue => "recorded_on"
    case RecordedOnSource => "recorded_on_source"
    case DurationSeconds => "duration_seconds"
    case SampleRateHz => "sample_rate_hz"
    case Channels => "channels"
    case BitrateBps => "bitrate_bps"
    case Format => "format"
    case Error => "error"
  }

  /** The field a dictionary key names, if any. */
  function FieldNamed(key: string): Option<Field> {
    if key == "filepath" then Some(Filepath)
    else if key == "filename" then Some(Filename)
    else if key == "file_size_bytes" then Some(FileSizeBytes)
    else if key == "file_modified_on" then Some(FileModifiedOn)
    else if key == "recorded_on" then Some(RecordedOnValue)
    else if key == "recorded_on_source" then Some(RecordedOnSource)
    else if key == "duration_seconds" then Some(DurationSeconds)
    else if key == "sample_rate_hz" then Some(SampleRateHz)
    else if key == "channels" then Some(Channels)
    else if key == "bitrate_bps" then Some(BitrateBps)
    else if key == "format" then Some(Format)
    else if key == "error" then Some(Error)
    else None
  }

  /** Every field is stored under its own key, so a map over fields is a map over the
      dictionary's string keys. */
  lemma KeyNamesField(f: Field)
    ensures FieldNamed(Key(f)) == Some(f)
  {
  }

  /** The output dictionary, from field to value. */
  type Metadata = map<Field, FieldValue>

  /** Python truthiness of a field value. */
  predicate Truthy(v: FieldValue) {
    match v
    case Null => false
    case Text(s) => s != ""
    case Int(n) => n != 0
    case Float(x) => x != 0.0
  }

  const SourceNone: string := "none"
  const SourceTag: string := "tag"
  const SourceFallback: string := "filesystem_fallback"

  const MutagenPrefix: string := "Could not process file with mutagen: "
  const UnexpectedPrefix: string := "An unexpected error occurred: "

  /** The fields every returned record has. */
  const BaseFields: set<Field> :=
    {Filepath, Filename, FileSizeBytes, FileModifiedOn, RecordedOnValue, RecordedOnSource}

  /** The fields copied from the reader's stream info. */
  const TechnicalFields: set<Field> :=
    {DurationSeconds, SampleRateHz, Channels, BitrateBps, Format}

  /** The reader returned a truthy object, so the `if media_file:` block runs. */
  predicate Opened(reader: ReaderResult) {
    reader.Returned? && reader.value.Some? && reader.value.value.truthy
  }

  /** The technical fields of a reader object; `getattr(info, "bitrate", 0)` defaults
      the bit rate to 0. */
  function Technical(f: MediaFile): (m: Metadata)
    ensures m.Keys == TechnicalFields
    ensures f.info.bitrate.None? ==> m[BitrateBps] == Int(0)
    ensures f.info.bitrate.Some? ==> m[BitrateBps] == Int(f.info.bitrate.value)
  {
    map[
      DurationSeconds := Float(f.info.length),
      SampleRateHz := Int(f.info.sampleRate),
      Channels := Int(f.info.channels),
      BitrateBps := Int(f.info.bitrate.GetOr(0)),
      Format := Text(f.typeName)]
  }

  /** What the tag search answers when the reader opened the file; `None` otherwise. */
  function TagSearch(parse: LenientParser, reader: ReaderResult): Outcome<Option<string>> {
    if Opened(reader) then RecordedOnOf(parse, reader.value) else Returned(None)
  }

  /** The exception the `try` block ends with, if any: the reader's own, or one that
      escaped the tag search. */
  function Absorbed(parse: LenientParser, reader: ReaderResult): Option<Exception> {
    if reader.Raised? then Some(reader.exc)
    else if TagSearch(parse, reader).Raised? then Some(TagSearch(parse, reader).exc)
    else None
  }

  /** The `error` text of the two `except` clauses. */
  function ErrorText(e: Exception): (t: string)
    // the text says which clause caught the exception, and ends with its message
    ensures IsInstance(e, MutagenError) <==> |t| >= |MutagenPrefix| && t[..|MutagenPrefix|] == MutagenPrefix
    ensures !IsInstance(e, MutagenError) ==> |t| >= |UnexpectedPrefix| && t[..|UnexpectedPrefix|] == UnexpectedPrefix
    ensures |t| >= |e.message| && t[|t| - |e.message|..] == e.message
  {
    assert MutagenPrefix[0] == 'C' && UnexpectedPrefix[0] == 'A';
    if IsInstance(e, MutagenError) then MutagenPrefix + e.message else UnexpectedPrefix + e.message
  }

  /** The fallback timestamp: the creation time where the platform reports one, else the
      modification time. */
  function FallbackTime(fs: FileFacts): (ts: Timestamp)
    ensures fs.birthtime.Some? ==> ts == fs.birthtime.value
    ensures fs.birthtime.None? ==> ts == fs.mtime
  {
    fs.birthtime.GetOr(fs.mtime)
  }

  /** The six fields written before the `try` block. */
  function Initial(fs: FileFacts, render: TimestampRenderer): Metadata {
    map[
      Filepath := Text(fs.resolved),
      Filename := Text(fs.name),
      FileSizeBytes := Int(fs.size),
      FileModifiedOn := Text(render(fs.mtime)),
      RecordedOnValue := Null,
      RecordedOnSource := Text(SourceNone)]
  }

  /** The `try` block applied to the record `m`: once the reader opened the file the
      technical fields are added, then the tag date if the search finds one. When the
      reader or the search raises, what was written before stays. */
  function AfterTry(m: Metadata, parse: LenientParser, reader: ReaderResult): Metadata {
    if !Opened(reader) then m
    else
      var withTechnical := m + Technical(reader.value.value);
      var search := RecordedOnOf(parse, reader.value);
      if search.Returned? && search.value.Some? && search.value.value != "" then
        withTechnical[RecordedOnValue := Text(search.value.value)][RecordedOnSource := Text(SourceTag)]
      else withTechnical
  }

  /** The `except` clauses applied to the record `m`. */
  function AfterExcept(m: Metadata, parse: LenientParser, reader: ReaderResult): Metadata {
    var absorbed := Absorbed(parse, reader);
    if absorbed.Some? then m[Error := Text(ErrorText(absorbed.value))] else m
  }

  /** The fallback step: a record whose `recorded_on` is falsy takes the file-system time. */
  function WithFallback(m: Metadata, fs: FileFacts, render: TimestampRenderer): Metadata
    requires RecordedOnValue in m
  {
    if Truthy(m[RecordedOnValue]) then m
    else m[RecordedOnValue := Text(render(FallbackTime(fs)))][RecordedOnSource := Text(SourceFallback)]
  }

  /** The record `extract_metadata` returns for a file that exists. */
  function Record(fs: FileFacts, reader: ReaderResult, parse: LenientParser, render: TimestampRenderer): Metadata {
    WithFallback(AfterExcept(AfterTry(Initial(fs, render), parse, reader), parse, reader), fs, render)
  }

  /** The `FileNotFoundError` raised for a path that does not exist. */
  function NotFound(fs: FileFacts): Exception {
    Exception({FileNotFoundError}, "Media file not found: " + fs.path)
  }

  /** `extract_metadata(filepath)`, step by step as the source builds its dictionary. */
  method ExtractMetadata(fs: FileFacts, reader: ReaderResult, parse: LenientParser, render: TimestampRenderer)
    returns (r: Outcome<Metadata>)
    ensures r == if fs.found then Returned(Record(fs, reader, parse, render)) else Raised(NotFound(fs))
  {
    if !fs.found {
      return Raised(Exception({FileNotFoundError}, "Media file not found: " + fs.path));
    }

    var metadata: Metadata := map[
      Filepath := Text(fs.resolved),
      Filename := Text(fs.name),
      FileSizeBytes := Int(fs.size),
      FileModifiedOn := Text(render(fs.mtime)),
      RecordedOnValue := Null,
      RecordedOnSource := Text(SourceNone)];

    // try: ... except MutagenError / except Exception
    var failure: Option<Exception> := None;
    match reader {
      case Raised(e) =>
        failure := Some(e);
      case Returned(mediaFile) =>
        if mediaFile.Some? && mediaFile.value.truthy {
          metadata := metadata + Technical(mediaFile.value);
          var recordedOnDate := GetRecordedOn(parse, mediaFile);
          match recordedOnDate {
            case Raised(e) =>
              failure := Some(e);
            case Returned(date) =>
              if date.Some? && date.value != "" {
                metadata := metadata[RecordedOnValue := Text(date.value)];
                metadata := metadata[RecordedOnSource := Text(SourceTag)];
              }
          }
        }
    }
    assert metadata == AfterTry(Initial(fs, render), parse, reader);
    assert failure == Absorbed(parse, reader);
    if failure.Some? {
      var e := failure.value;
      if IsInstance(e, MutagenError) {
        metadata := metadata[Error := Text(MutagenPrefix + e.message)];
      } else {
        metadata := metadata[Error := Text(UnexpectedPrefix + e.message)];
      }
    }
    assert metadata == AfterExcept(AfterTry(Initial(fs, render), parse, reader), parse, reader);

    if !Truthy(metadata[RecordedOnValue]) {
      // try: st_birthtime  except AttributeError: st_mtime
      var ts := if fs.birthtime.Some? then fs.birthtime.value else fs.mtime;
      metadata := metadata[RecordedOnValue := Text(render(ts))];
      metadata := metadata[RecordedOnSource := Text(SourceFallback)];
    }
    return Returned(metadata);
  }

  // ---------------------------------------------------------------------------
  // Properties of the record

  /** The `try` block changes only the technical fields and the tag date. */
  lemma TryKeeps(m: Metadata, parse: LenientParser, reader: ReaderResult, k: Field)
    requires k in m && k !in TechnicalFields && k != RecordedOnValue && k != RecordedOnSource
    ensures k in AfterTry(m, parse, reader) && AfterTry(m, parse, reader)[k] == m[k]
  {
  }

  /** The `except` clauses change only `error`. */
  lemma ExceptKeeps(m: Metadata, parse: LenientParser, reader: ReaderResult, k: Field)
    requires k in m && k != Error
    ensures k in AfterExcept(m, parse, reader) && AfterExcept(m, parse, reader)[k] == m[k]
  {
  }

  /** The fallback step changes only the date and its provenance. */
  lemma FallbackKeeps(m: Metadata, fs: FileFacts, render: TimestampRenderer, k: Field)
    requires RecordedOnValue in m && k in m && k != RecordedOnValue && k != RecordedOnSource
    ensures WithFallback(m, fs, render)[k] == m[k]
  {
  }

  /** A field written before the `try` block, other than the date and its provenance,
      ends as it was written. */
  lemma BaseFieldKept(fs: FileFacts, reader: ReaderResult, parse: LenientParser, render: TimestampRenderer, k: Field)
    requires k in Initial(fs, render) && k != RecordedOnValue && k != RecordedOnSource
    ensures k in Record(fs, reader, parse, render)
    ensures Record(fs, reader, parse, render)[k] == Initial(fs, render)[k]
  {
    var tried := AfterTry(Initial(fs, render), parse, reader);
    TryKeeps(Initial(fs, render), parse, reader, k);
    ExceptKeeps(tried, parse, reader, k);
    FallbackKeeps(AfterExcept(tried, parse, reader), fs, render, k);
  }

  /** A technical field ends as the reader gave it. */
  lemma TechnicalFieldKept(fs: FileFacts, reader: ReaderResult, parse: LenientParser, render: TimestampRenderer, k: Field)
    requires Opened(reader) && k in TechnicalFields
    ensures k in Record(fs, reader, parse, render)
    ensures Record(fs, reader, parse, render)[k] == Technical(reader.value.value)[k]
  {
    var tried := AfterTry(Initial(fs, render), parse, reader);
    assert k in tried && tried[k] == Technical(reader.value.value)[k];
    ExceptKeeps(tried, parse, reader, k);
    FallbackKeeps(AfterExcept(tried, parse, reader), fs, render, k);
  }

  /** The record holds the six base fields, the five technical fields exactly when the
      reader returned a truthy object, and `error` exactly when an exception was absorbed. */
  lemma RecordKeys(fs: FileFacts, reader: ReaderResult, parse: LenientParser, render: TimestampRenderer)
    ensures Record(fs, reader, parse, render).Keys
         == BaseFields + (if Opened(reader) then TechnicalFields else {})
                       + (if Absorbed(parse, reader).Some? then {Error} else {})
  {
  }

  /** The file-system fields are the path facts, whatever the reader did. */
  lemma RecordFileFields(fs: FileFacts, reader: ReaderResult, parse: LenientParser, render: TimestampRenderer)
    ensures var m := Record(fs, reader, parse, render);
      && m[Filepath] == Text(fs.resolved)
      && m[Filename] == Text(fs.name)
      && m[FileSizeBytes] == Int(fs.size)
      && m[FileModifiedOn] == Text(render(fs.mtime))
  {
    BaseFieldKept(fs, reader, parse, render, Filepath);
    BaseFieldKept(fs, reader, parse, render, Filename);
    BaseFieldKept(fs, reader, parse, render, FileSizeBytes);
    BaseFieldKept(fs, reader, parse, render, FileModifiedOn);
  }

  /** The technical fields are the reader's values, the bit rate defaulting to 0, and they
      stay when the tag search then raises. */
  lemma RecordTechnicalFields(fs: FileFacts, reader: ReaderResult, parse: LenientParser, render: TimestampRenderer)
    requires Opened(reader)
    ensures var m := Record(fs, reader, parse, render); var info := reader.value.value.info;
      && m[DurationSeconds] == Float(info.length)
      && m[SampleRateHz] == Int(info.sampleRate)
      && m[Channels] == Int(info.channels)
      && m[BitrateBps] == Int(if info.bitrate.Some? then info.bitrate.value else 0)
      && m[Format] == Text(reader.value.value.typeName)
  {
    TechnicalFieldKept(fs, reader, parse, render, DurationSeconds);
    TechnicalFieldKept(fs, reader, parse, render, SampleRateHz);
    TechnicalFieldKept(fs, reader, parse, render, Channels);
    TechnicalFieldKept(fs, reader, parse, render, BitrateBps);
    TechnicalFieldKept(fs, reader, parse, render, Format);
  }

  /** An absorbed exception is reported with the prefix of the clause that caught it. */
  lemma RecordError(fs: FileFacts, reader: ReaderResult, parse: LenientParser, render: TimestampRenderer)
    requires Absorbed(parse, reader).Some?
    ensures var m := Record(fs, reader, parse, render); var e := Absorbed(parse, reader).value;
      && (IsInstance(e, MutagenError) ==> m[Error] == Text(MutagenPrefix + e.message))
      && (!IsInstance(e, MutagenError) ==> m[Error] == Text(UnexpectedPrefix + e.message))
  {
  }

  /** The exception a reader raises is absorbed, and so is one escaping the tag search. */
  lemma AbsorbedIsTryFailure(parse: LenientParser, reader: ReaderResult)
    ensures Absorbed(parse, reader).Some? <==> reader.Raised? || (Opened(reader) && RecordedOnOf(parse, reader.value).Raised?)
  {
  }

  /** Provenance: `recorded_on_source` is never left at `"none"`; it is `"tag"` exactly
      when the tag search found a date, and then `recorded_on` is that date; otherwise
      `recorded_on` is the rendering of the file-system fallback time. */
  lemma RecordProvenance(fs: FileFacts, reader: ReaderResult, parse: LenientParser, render: TimestampRenderer)
    ensures var m := Record(fs, reader, parse, render); var found := TagSearch(parse, reader);
      && (m[RecordedOnSource] == Text(SourceTag) || m[RecordedOnSource] == Text(SourceFallback))
      && (m[RecordedOnSource] == Text(SourceTag) <==> found.Returned? && found.value.Some?)
      && (found.Returned? && found.value.Some? ==> m[RecordedOnValue] == Text(found.value.value))
      && (m[RecordedOnSource] == Text(SourceFallback) ==> m[RecordedOnValue] == Text(render(FallbackTime(fs))))
  {
    DateBeforeFallback(fs, reader, parse, render);
  }

  /** Before the fallback step, the date and its provenance are the tag date and `"tag"`
      when the search found one, and still `None` and `"none"` otherwise. */
  lemma DateBeforeFallback(fs: FileFacts, reader: ReaderResult, parse: LenientParser, render: TimestampRenderer)
    ensures var m := AfterExcept(AfterTry(Initial(fs, render), parse, reader), parse, reader);
      var found := TagSearch(parse, reader);
      && RecordedOnValue in m && RecordedOnSource in m
      && (found.Returned? && found.value.Some? ==>
            found.value.value != "" && m[RecordedOnValue] == Text(found.value.value) && m[RecordedOnSource] == Text(SourceTag))
      && (!(found.Returned? && found.value.Some?) ==>
            m[RecordedOnValue] == Null && m[RecordedOnSource] == Text(SourceNone))
  {
    var found := TagSearch(parse, reader);
    if found.Returned? && found.value.Some? {
      FoundDateIsUtc(parse, reader.value, found.value.value);
    }
  }

  /** A record always has a recording date, and a tag date is a UTC rendering. */
  lemma RecordHasDate(fs: FileFacts, reader: ReaderResult, parse: LenientParser, render: TimestampRenderer)
    ensures var m := Record(fs, reader, parse, render);
      && m[RecordedOnValue].Text?
      && (m[RecordedOnSource] == Text(SourceTag) ==>
            |m[RecordedOnValue].text| >= 25 && m[RecordedOnValue].text[|m[RecordedOnValue].text| - 6..] == UtcSuffix)
  {
    RecordProvenance(fs, reader, parse, render);
    var found := TagSearch(parse, reader);
    if found.Returned? && found.value.Some? {
      FoundDateIsUtc(parse, reader.value, found.value.value);
    }
  }

  /** A file the reader does not recognise, or cannot read, gets the fallback date. */
  lemma UnreadableFileFallsBack(fs: FileFacts, reader: ReaderResult, parse: LenientParser, render: TimestampRenderer)
    requires !Opened(reader)
    ensures var m := Record(fs, reader, parse, render);
      && m[RecordedOnValue] == Text(render(FallbackTime(fs)))
      && m[RecordedOnSource] == Text(SourceFallback)
      && (reader.Returned? ==> Error !in m)
  {
  }
}
