/** `_DATE_TAGS` and `_get_recorded_on`: the first-success search for a recording date
    over a fixed, ordered list of tag keys (src/media_meta/extractor.py:14-22, 39-54). */
module RecordedOn {
  import opened PyRuntime
  import opened PyText
  import opened DateNormalizer

  /** `_DATE_TAGS`, in priority order: the ID3v2 recording time, the MP4 `©day` atom, the
      ID3v2 original-release and release times, the Vorbis-comment `DATE` field, and the
      ID3v2.3 year and day-month frames. */
  const DateTags: seq<string> := ["TDRC", "\U{a9}day", "TDOR", "TDRL", "DATE", "TYER", "TDAT"]

  /** The candidates are seven distinct keys, and the ID3v2 recording time is tried
      first, before the MP4 date atom. */
  lemma DateTagsPriority()
    ensures |DateTags| == 7
    ensures forall i, j :: 0 <= i < j < |DateTags| ==> DateTags[i] != DateTags[j]
    ensures DateTags[0] == "TDRC" && DateTags[1] == "\U{a9}day"
  {
  }

  /** What a tag set maps a key to, after `str()` of each item: one value or a list. */
  datatype TagValue = Scalar(text: string) | List(items: seq<string>)

  /** A tag set, keyed by the container's raw tag keys. */
  type Tags = map<string, TagValue>

  /** `media_file.info`: `length` is a float that is only copied, never computed with;
      `bitrate` is absent on stream types that do not define it. */
  datatype StreamInfo = StreamInfo(length: real, sampleRate: int, channels: int, bitrate: Option<int>)

  /** What the tag reader returns for a recognised file: whether the object is truthy
      (a dict-like reader object with no tags is falsy), its stream info, its class
      name, and its tag set, which may be absent. */
  datatype MediaFile = MediaFile(truthy: bool, info: StreamInfo, typeName: string, tags: Option<Tags>)

  /** `media_file.tags` is present and not empty. */
  predicate HasTags(f: MediaFile) {
    f.tags.Some? && |f.tags.value| > 0
  }

  /** `str(value[0] if isinstance(value, list) else value)`: indexing an empty list raises
      `IndexError`. */
  function TagText(v: TagValue): (r: Outcome<string>)
    ensures r.Raised? <==> v.List? && v.items == []
    ensures r.Returned? && v.Scalar? ==> r.value == v.text
    ensures r.Returned? && v.List? ==> r.value == v.items[0]
  {
    match v
    case Scalar(text) => Returned(text)
    case List(items) =>
      if items == [] then Raised(Exception({IndexError}, "list index out of range"))
      else Returned(items[0])
  }

  /** What one candidate key contributes to the search. */
  datatype Step = Skip | Found(date: string) | Abort(exc: Exception)

  /** The `except (KeyError, IndexError): continue` clause. */
  function Absorb(e: Exception): Step {
    if IsInstance(e, KeyError) || IsInstance(e, IndexError) then Skip else Abort(e)
  }

  /** One iteration of the loop for `key`: absent keys, values that give no text and
      texts that do not parse are skipped; a truthy parse result ends the search; any
      exception other than `KeyError` or `IndexError` escapes. */
  function TryTag(parse: LenientParser, tags: Tags, key: string): Step
  {
    if key !in tags then Skip
    else
      match TagText(tags[key])
      case Raised(e) => Absorb(e)
      case Returned(text) =>
        match ParseTagDate(parse, Strip(text))
        case Raised(e) => Absorb(e)
        case Returned(date) => if date.Some? && date.value != "" then Found(date.value) else Skip
  }

  /** What one iteration contributes: an absent key and an empty list are skipped; a
      date is the normalised stripped text of the key's first item and carries the
      `+00:00` offset; only an exception that is neither a `KeyError` nor an `IndexError`
      ends the search. */
  lemma TryTagSteps(parse: LenientParser, tags: Tags, key: string)
    ensures var s := TryTag(parse, tags, key);
      // an absent key and an empty list are skipped
      && (key !in tags ==> s == Skip)
      && (key in tags && tags[key] == List([]) ==> s == Skip)
      // a date is the normalised stripped text of the key's first item
      && (s.Found? ==>
            && key in tags && TagText(tags[key]).Returned?
            && ParseTagDate(parse, Strip(TagText(tags[key]).value)) == Returned(Some(s.date))
            && |s.date| >= 25 && s.date[|s.date| - 6..] == "+00:00")
      // only an exception that is neither a `KeyError` nor an `IndexError` ends the search
      && (s.Abort? ==> key in tags && !IsInstance(s.exc, KeyError) && !IsInstance(s.exc, IndexError))
    // and conversely, for a present key whose value gives a text, what the normaliser
    // makes of the stripped text decides the step
    ensures key in tags && TagText(tags[key]).Returned? ==>
      var parsed := ParseTagDate(parse, Strip(TagText(tags[key]).value));
      var s := TryTag(parse, tags, key);
      && (parsed.Returned? && parsed.value.Some? ==> s == Found(parsed.value.value))
      && (parsed == Returned(None) ==> s == Skip)
      && (parsed.Raised? && !IsInstance(parsed.exc, KeyError) && !IsInstance(parsed.exc, IndexError) ==> s == Abort(parsed.exc))
      && (parsed.Raised? && (IsInstance(parsed.exc, KeyError) || IsInstance(parsed.exc, IndexError)) ==> s == Skip)
  {
  }

  /** How a step that is not `Skip` ends the search. */
  function Conclude(s: Step): Outcome<Option<string>> {
    match s
    case Found(d) => Returned(Some(d))
    case Abort(e) => Raised(e)
    case Skip => Returned(None)
  }

  /** The search over `keys`, in order, as a recursive function. */
  function SearchTags(parse: LenientParser, tags: Tags, keys: seq<string>): Outcome<Option<string>> {
    if keys == [] then Returned(None)
    else if TryTag(parse, tags, keys[0]) == Skip then SearchTags(parse, tags, keys[1..])
    else Conclude(TryTag(parse, tags, keys[0]))
  }

  /** `_get_recorded_on(media_file)` as a function of its argument. */
  function RecordedOnOf(parse: LenientParser, file: Option<MediaFile>): Outcome<Option<string>> {
    if file.None? || !file.value.truthy || !HasTags(file.value) then Returned(None)
    else SearchTags(parse, file.value.tags.value, DateTags)
  }

  /** `_get_recorded_on(media_file)`, as the loop the source runs. */
  method GetRecordedOn(parse: LenientParser, file: Option<MediaFile>) returns (r: Outcome<Option<string>>)
    ensures r == RecordedOnOf(parse, file)
  {
    if file.None? || !file.value.truthy || !HasTags(file.value) {
      return Returned(None);
    }
    var tags := file.value.tags.value;
    for i := 0 to |DateTags|
      invariant SearchTags(parse, tags, DateTags[i..]) == SearchTags(parse, tags, DateTags)
    {
      var tag := DateTags[i];
      assert DateTags[i..][0] == tag && DateTags[i..][1..] == DateTags[i + 1..];
      // try: ... except (KeyError, IndexError): continue
      var failure: Option<Exception> := None;
      if tag in tags {
        var raw := TagText(tags[tag]);
        if raw.Raised? {
          failure := Some(raw.exc);
        } else {
          var parsed := ParseTagDate(parse, Strip(raw.value));
          if parsed.Raised? {
            failure := Some(parsed.exc);
          } else if parsed.value.Some? && parsed.value.value != "" {
            return Returned(parsed.value);
          }
        }
      }
      if failure.Some? {
        if IsInstance(failure.value, KeyError) || IsInstance(failure.value, IndexError) {
          continue;
        }
        return Raised(failure.value);
      }
    }
    return Returned(None);
  }

  // ---------------------------------------------------------------------------
  // Properties of the search

  /** The position of the first key that ends the search, or `|keys|` if none does. */
  ghost function FirstDecisive(parse: LenientParser, tags: Tags, keys: seq<string>): (k: nat)
    ensures k <= |keys|
    ensures forall j :: 0 <= j < k ==> TryTag(parse, tags, keys[j]) == Skip
    ensures k < |keys| ==> TryTag(parse, tags, keys[k]) != Skip
  {
    if keys == [] then 0
    else if TryTag(parse, tags, keys[0]) == Skip then 1 + FirstDecisive(parse, tags, keys[1..])
    else 0
  }

  /** The search ends at the first key whose step is not `Skip`, and answers what that
      step says; if there is none, it answers `None`. */
  lemma {:induction false} SearchIsFirstDecisive(parse: LenientParser, tags: Tags, keys: seq<string>)
    ensures var k := FirstDecisive(parse, tags, keys);
      SearchTags(parse, tags, keys) == if k == |keys| then Returned(None) else Conclude(TryTag(parse, tags, keys[k]))
  {
    if keys != [] && TryTag(parse, tags, keys[0]) == Skip {
      SearchIsFirstDecisive(parse, tags, keys[1..]);
    }
  }

  /** Priority: once a key has ended the search, the keys after it are never looked at;
      two tag sets that agree up to that key give the same answer. */
  lemma {:induction false} LaterKeysIgnored(parse: LenientParser, tags: Tags, other: Tags, keys: seq<string>, k: nat)
    requires k < |keys| && TryTag(parse, tags, keys[k]) != Skip
    requires forall j :: 0 <= j <= k ==> TryTag(parse, tags, keys[j]) == TryTag(parse, other, keys[j])
    ensures SearchTags(parse, tags, keys) == SearchTags(parse, other, keys)
  {
    if TryTag(parse, tags, keys[0]) == Skip {
      assert k > 0;
      forall j | 0 <= j <= k - 1
        ensures TryTag(parse, tags, keys[1..][j]) == TryTag(parse, other, keys[1..][j])
      {
        assert keys[1..][j] == keys[j + 1];
      }
      LaterKeysIgnored(parse, tags, other, keys[1..], k - 1);
    }
  }

  /** Two tag sets that agree on the candidate keys (which are present, and with which
      values) give the same search result, whatever else they hold and in whatever order
      their keys would be iterated. */
  lemma {:induction false} OnlyCandidateKeysMatter(parse: LenientParser, tags: Tags, other: Tags, keys: seq<string>)
    requires forall j :: 0 <= j < |keys| ==> (keys[j] in tags <==> keys[j] in other)
    requires forall j :: 0 <= j < |keys| && keys[j] in tags ==> tags[keys[j]] == other[keys[j]]
    ensures SearchTags(parse, tags, keys) == SearchTags(parse, other, keys)
  {
    if keys != [] {
      assert TryTag(parse, tags, keys[0]) == TryTag(parse, other, keys[0]);
      OnlyCandidateKeysMatter(parse, tags, other, keys[1..]);
    }
  }

  /** A tag set that holds none of the candidate keys yields no date. */
  lemma {:induction false} NoCandidateNoDate(parse: LenientParser, tags: Tags, keys: seq<string>)
    requires forall j :: 0 <= j < |keys| ==> keys[j] !in tags
    ensures SearchTags(parse, tags, keys) == Returned(None)
  {
    if keys != [] {
      NoCandidateNoDate(parse, tags, keys[1..]);
    }
  }

  /** `_get_recorded_on` depends only on what the candidate keys map to: an empty tag set
      and one with no candidate key give the same `None`. */
  lemma RecordedOnDependsOnCandidates(parse: LenientParser, f: MediaFile, g: MediaFile)
    requires f.truthy && g.truthy && f.tags.Some? && g.tags.Some?
    requires forall key :: key in DateTags ==> (key in f.tags.value <==> key in g.tags.value)
    requires forall key :: key in DateTags && key in f.tags.value ==> f.tags.value[key] == g.tags.value[key]
    ensures RecordedOnOf(parse, Some(f)) == RecordedOnOf(parse, Some(g))
  {
    var t, u := f.tags.value, g.tags.value;
    assert forall j :: 0 <= j < |DateTags| ==> DateTags[j] in DateTags;
    if |t| == 0 {
      NoCandidateNoDate(parse, u, DateTags);
    } else if |u| == 0 {
      NoCandidateNoDate(parse, t, DateTags);
    } else {
      OnlyCandidateKeysMatter(parse, t, u, DateTags);
    }
  }

  /** No reader object, a falsy one, or an absent or empty tag set gives `None`. */
  lemma NothingToSearch(parse: LenientParser, file: Option<MediaFile>)
    requires file.None? || !file.value.truthy || file.value.tags.None? || file.value.tags.value == map[]
    ensures RecordedOnOf(parse, file) == Returned(None)
  {
  }

  /** A date the search returns is exactly what `_parse_tag_date` returned for the
      stripped text of a candidate key present in the tags, and every candidate key
      before it yielded nothing. */
  lemma FoundDateComesFromCandidate(parse: LenientParser, file: Option<MediaFile>, d: string)
    requires RecordedOnOf(parse, file) == Returned(Some(d))
    ensures file.Some? && file.value.tags.Some?
    ensures exists i :: (
      && 0 <= i < |DateTags| && DateTags[i] in file.value.tags.value
      && TagText(file.value.tags.value[DateTags[i]]).Returned?
      && ParseTagDate(parse, Strip(TagText(file.value.tags.value[DateTags[i]]).value)) == Returned(Some(d))
      && (forall j :: 0 <= j < i ==> TryTag(parse, file.value.tags.value, DateTags[j]) == Skip))
  {
    var tags := file.value.tags.value;
    SearchIsFirstDecisive(parse, tags, DateTags);
    var k := FirstDecisive(parse, tags, DateTags);
    assert TryTag(parse, tags, DateTags[k]) == Found(d);
  }

  /** Priority, forwards: when every candidate key before position `i` is skipped and the
      key at `i` is present and its stripped text normalises to a date, the search
      returns that date. */
  lemma EarliestParsingKeyWins(parse: LenientParser, tags: Tags, i: nat, d: string)
    requires i < |DateTags| && DateTags[i] in tags && TagText(tags[DateTags[i]]).Returned?
    requires ParseTagDate(parse, Strip(TagText(tags[DateTags[i]]).value)) == Returned(Some(d))
    requires forall j :: 0 <= j < i ==> TryTag(parse, tags, DateTags[j]) == Skip
    ensures SearchTags(parse, tags, DateTags) == Returned(Some(d))
  {
    SearchIsFirstDecisive(parse, tags, DateTags);
    TryTagSteps(parse, tags, DateTags[i]);
    assert TryTag(parse, tags, DateTags[i]) == Found(d);
    FirstDecisiveIs(parse, tags, DateTags, i);
  }

  /** `FirstDecisive` is the position of a step that is not `Skip` preceded only by skips. */
  lemma {:induction false} FirstDecisiveIs(parse: LenientParser, tags: Tags, keys: seq<string>, i: nat)
    requires i < |keys| && TryTag(parse, tags, keys[i]) != Skip
    requires forall j :: 0 <= j < i ==> TryTag(parse, tags, keys[j]) == Skip
    ensures FirstDecisive(parse, tags, keys) == i
  {
    if i > 0 {
      assert TryTag(parse, tags, keys[0]) == Skip;
      forall j | 0 <= j < i - 1
        ensures TryTag(parse, tags, keys[1..][j]) == Skip
      {
        assert keys[1..][j] == keys[j + 1];
      }
      assert keys[1..][i - 1] == keys[i];
      FirstDecisiveIs(parse, tags, keys[1..], i - 1);
    }
  }

  /** The date the search returns carries the `+00:00` offset. */
  lemma FoundDateIsUtc(parse: LenientParser, file: Option<MediaFile>, d: string)
    requires RecordedOnOf(parse, file) == Returned(Some(d))
    ensures |d| >= 25 && d[|d| - 6..] == "+00:00"
  {
    FoundDateComesFromCandidate(parse, file, d);
  }
}
