# media-meta: recording-date resolution, in Dafny

media-meta reads a media file and returns one flat record: file-system facts
(path, name, size, modification time), technical stream facts from the tag
reader (duration, sample rate, channels, bit rate, container class), and a
recording date with its provenance. The date comes from the first of seven
candidate tags, in a fixed priority order, whose text the lenient date parser
accepts; it is normalised to an ISO 8601 string with a `+00:00` offset (UTC is
assigned, not converted to). When no tag gives a date, the creation time of the
file, or its modification time where the platform has no creation time, is used
instead. Only a missing file raises; every reader failure is absorbed into an
`error` field.

The model follows `src/media_meta/extractor.py`:

- `py_runtime.dfy` (`PyRuntime`): `Option`, exceptions as the set of classes
  `isinstance` accepts, and `Outcome` (a return value or a raised exception).
- `iso_format.dfy` (`IsoFormat`): `datetime` values with the constructor's range
  checks, `isoformat()` for a UTC `datetime`
  (`YYYY-MM-DDTHH:MM:SS[.ffffff]+00:00`, the `date-time` form of section 5.6 of
  RFC 3339), and a decoder proved to be its exact inverse.
- `py_text.dfy` (`PyText`): `str.strip()` over Python's white-space set, proved
  against an independent description of stripping.
- `date_normalizer.dfy` (`DateNormalizer`, `IsoSubset`): `_parse_tag_date` over
  the lenient parser, which is a parameter; and a small concrete parser for three
  ISO 8601 shapes that checks the normaliser on the cases the repository's tests
  use.
- `recorded_on.dfy` (`RecordedOn`): `_DATE_TAGS` and `_get_recorded_on`, as the
  loop the source runs, proved equal to a recursive search function, with the
  priority properties of that search.
- `extractor.dfy` (`Extractor`): `extract_metadata` as a method that builds the
  record step by step, proved equal to a record function whose fields,
  provenance and error reporting are stated as lemmas.

Two consequences of how the code is written are worth stating, because a reader of
the code may expect otherwise:

- The technical fields are written by `metadata.update` before the tag search runs
  (`src/media_meta/extractor.py:79-89`). When the tag search then raises an exception
  other than `KeyError` or `IndexError`, the record holds both the technical fields
  and `error` (`Extractor.RecordKeys`, `Extractor.RecordTechnicalFields`).
- `_parse_tag_date` turns only `ValueError` and `TypeError` into `None`
  (`src/media_meta/extractor.py:35-36`). Any other exception from the lenient parser
  escapes it. A `KeyError` or `IndexError` is then caught by the search's
  `except (KeyError, IndexError)` and the key is skipped; any other exception ends
  the search without trying the remaining keys and is reported in `error`
  (`DateNormalizer.ParseTagDate`, `RecordedOn.SearchIsFirstDecisive`).

## Model

| member | source | states |
|---|---|---|
| PyText.Strip | src/media_meta/extractor.py:49 | `raw_value.strip()` is no longer than the text, and neither starts nor ends with white space |
| PyText.StripIsStrip | src/media_meta/extractor.py:49 | `strip()` removes a white-space prefix and suffix and leaves a text that neither starts nor ends with white space |
| PyText.StripIsUnique | src/media_meta/extractor.py:49 | any text obtained by cutting white space off both ends, and not itself starting or ending with white space, is the stripped text |
| PyText.StripIdempotent | src/media_meta/extractor.py:49 | stripping a stripped text changes nothing |
| IsoFormat.IsoFormatUtc | src/media_meta/extractor.py:34 | the rendering is 25 characters, or 32 with a fraction when the microsecond is not zero, and always ends in `+00:00` |
| IsoFormat.IsoRoundTrip | src/media_meta/extractor.py:34 | decoding the rendering of a `datetime` gives back every wall-clock field |
| IsoFormat.IsoDecodeIsExact | src/media_meta/extractor.py:34 | every string that decodes is the rendering of what it decodes to, so rendering is a bijection onto its image |
| DateNormalizer.ParseTagDate | src/media_meta/extractor.py:25-36 | `ValueError` and `TypeError` from the parser, and only they, give `None`; every other exception escapes unchanged; a result is a successful parse rendered with the `+00:00` offset |
| DateNormalizer.NormalisedKeepsWallClock | src/media_meta/extractor.py:31-34 | UTC is assigned, not converted to: the normalised string decodes to exactly the `datetime` the parser produced with the 1-1-1 default |
| DateNormalizer.SameInstantSameString | src/media_meta/extractor.py:33-34 | two texts the parser accepts normalise to the same string if and only if it reads them as the same `datetime` |
| IsoSubset.ParseIsoSubset | src/media_meta/extractor.py:33 | the concrete stand-in parser fails only with `ValueError`, as the lenient parser does for text it cannot read |
| IsoSubset.YearOnly | src/media_meta/extractor.py:30-34 | a four-digit year from 100 on normalises to January 1st of that year at midnight, UTC, the missing month and day coming from the 1-1-1 default |
| IsoSubset.YearText | src/media_meta/extractor.py:30-34 | a text of four digits naming a year from 100 on normalises to itself followed by `-01-01T00:00:00+00:00` |
| IsoSubset.DateText | src/media_meta/extractor.py:30-34 | a `YYYY-MM-DD` text naming a real date normalises to itself followed by `T00:00:00+00:00`: midnight of that date, UTC |
| IsoSubset.DateAndTimeText | src/media_meta/extractor.py:30-34 | a `YYYY-MM-DDTHH:MM:SS` text naming a real date and time normalises to itself followed by `+00:00` |
| IsoSubset.TestDateAndTime | tests/test_extractor.py:31 | `2024-09-04T10:30:00` normalises to `2024-09-04T10:30:00+00:00` |
| IsoSubset.TestDateOnly | tests/test_extractor.py:32 | `2023-01-15` normalises to `2023-01-15T00:00:00+00:00` |
| IsoSubset.TestYearOnly | tests/test_extractor.py:33 | `2022` normalises to `2022-01-01T00:00:00+00:00` |
| IsoSubset.TestNotADate | tests/test_extractor.py:41-43 | text the parser rejects normalises to `None` |
| RecordedOn.DateTagsPriority | src/media_meta/extractor.py:14-22 | `_DATE_TAGS` lists seven distinct keys, the ID3v2 recording time `TDRC` first and the MP4 `©day` atom second |
| RecordedOn.TagText | src/media_meta/extractor.py:48 | the text of a value is the value itself, or the first item of a list; only an empty list fails |
| RecordedOn.TryTagSteps | src/media_meta/extractor.py:45-53 | one iteration (`TryTag`), both ways: an absent key and an empty list are skipped; for a present key with a text, a date from the normaliser on the stripped text gives that date, `None` gives a skip, a `KeyError` or `IndexError` gives a skip and any other exception ends the search with it; conversely a date it yields comes from the normaliser and carries `+00:00` |
| RecordedOn.GetRecordedOn | src/media_meta/extractor.py:39-54 | the loop over `_DATE_TAGS` with its `continue` and early returns computes the search function `RecordedOnOf` |
| RecordedOn.SearchIsFirstDecisive | src/media_meta/extractor.py:44-54 | the search answers what the first key that does not skip says (a date, or an escaping exception), and `None` when every key skips |
| RecordedOn.EarliestParsingKeyWins | src/media_meta/extractor.py:44-51 | priority, forwards: a present candidate key whose stripped text normalises to a date, with every earlier candidate skipped, makes the search return that date |
| RecordedOn.LaterKeysIgnored | src/media_meta/extractor.py:44-51 | priority: once a key gives a date or raises, the keys after it are never consulted |
| RecordedOn.OnlyCandidateKeysMatter | src/media_meta/extractor.py:44-47 | two tag sets that agree on the candidate keys give the same answer, whatever other keys they hold |
| RecordedOn.NoCandidateNoDate | src/media_meta/extractor.py:44-54 | a tag set holding none of the candidate keys gives `None` |
| RecordedOn.RecordedOnDependsOnCandidates | src/media_meta/extractor.py:41-47 | for two truthy reader objects with tag sets, the answer depends only on the candidate keys' presence and values |
| RecordedOn.NothingToSearch | src/media_meta/extractor.py:41-42 | no reader object, a falsy one, or an absent or empty tag set gives `None` |
| RecordedOn.FoundDateComesFromCandidate | src/media_meta/extractor.py:44-51 | a returned date is `_parse_tag_date` of the stripped text of a present candidate key, and every earlier candidate key was skipped |
| RecordedOn.FoundDateIsUtc | src/media_meta/extractor.py:49-51 | a returned date carries the `+00:00` offset |
| Extractor.KeyNamesField | src/media_meta/extractor.py:63-108 | no two fields of the record share a dictionary key: each key names back the one field stored under it |
| Extractor.Technical | src/media_meta/extractor.py:78-87 | the update adds exactly the five technical fields, the bit rate being the stream's own or 0 when the stream has none |
| Extractor.ErrorText | src/media_meta/extractor.py:94-97 | the `error` text starts with the mutagen prefix exactly when the exception is a `MutagenError`, otherwise with the generic prefix, and ends with the exception's message |
| Extractor.FallbackTime | src/media_meta/extractor.py:100-103 | the fallback time is the creation time where the platform has one, else the modification time |
| Extractor.ExtractMetadata | src/media_meta/extractor.py:57-110 | a missing file raises `FileNotFoundError` with the path in its message; an existing file gives the record `Record` describes |
| Extractor.RecordKeys | src/media_meta/extractor.py:63-97 | the record has the six base fields, the five technical fields exactly when the reader returned a truthy object, and `error` exactly when an exception was absorbed |
| Extractor.BaseFieldKept | src/media_meta/extractor.py:63-97 | every field written before the `try`, other than the date and its source, reaches the returned record unchanged |
| Extractor.TechnicalFieldKept | src/media_meta/extractor.py:77-108 | when the reader returned a truthy object, each technical field reaches the returned record as it was written from the reader object |
| Extractor.RecordFileFields | src/media_meta/extractor.py:63-69 | path, name, size and rendered modification time are the file-system facts, whatever the reader did |
| Extractor.RecordTechnicalFields | src/media_meta/extractor.py:77-87 | the technical fields are the reader's values, the bit rate defaulting to 0, kept even when the tag search then raises |
| Extractor.RecordError | src/media_meta/extractor.py:94-97 | a `MutagenError` is reported with the mutagen prefix, any other absorbed exception with the generic prefix |
| Extractor.AbsorbedIsTryFailure | src/media_meta/extractor.py:74-97 | an exception is absorbed exactly when the reader raised, or it opened the file and the tag search raised |
| Extractor.RecordProvenance | src/media_meta/extractor.py:89-108 | the source is never left at `none`; it is `tag` exactly when the search found a date, and then the date is that one; otherwise the date is the rendered fallback time |
| Extractor.RecordHasDate | src/media_meta/extractor.py:99-108 | every record has a recording date, and a tag date carries the `+00:00` offset |
| Extractor.UnreadableFileFallsBack | src/media_meta/extractor.py:74-108 | a file the reader does not recognise or cannot read gets the fallback date, and an unrecognised one no `error` |

## Left out

- The lenient date parser (`dateutil.parser.parse`) is foreign code: it is the parameter `LenientParser`, a function of the text and the default that returns a `datetime` or raises; its grammar is not modelled. `IsoSubset.ParseIsoSubset` covers only three ISO 8601 shapes and is used to check the normaliser on concrete text.
- The tag reader (`mutagen.File`) is foreign code: its result is an input (a reader object, `None`, or an exception); container decoding is not modelled.
- File-system queries (`exists`, `resolve`, `name`, `stat`) are inputs gathered in `FileFacts`; platform detection of `st_birthtime` is an optional field.
- `datetime.fromtimestamp(ts, tz=timezone.utc).isoformat()` is the parameter `TimestampRenderer`; timestamps and the duration are opaque `real`s, so floating-point behaviour is not modelled.
- `media_file.__class__.__name__` is an opaque string field of the reader object.
- A `KeyError` from `media_file.tags[tag]` after `tag in media_file.tags` succeeded cannot occur with tags modelled as a map; a `KeyError` or `IndexError` raised by the parser is still skipped by the search.
- IsoSubset.YearOnly, IsoSubset.YearText: stated only for years from 100 on. The stand-in parser reads any four-digit text as a year, while the lenient parser reads a lone number below 100 differently, so the stand-in promises nothing about `_parse_tag_date` for those texts.
- RecordedOn.TryTag: membership (`tag in media_file.tags`) and lookup (`media_file.tags[tag]`) on the reader's tag container are assumed not to raise, because tags are modelled as a map. A container whose membership test raises (for example on a key it cannot encode) would end the search there with an absorbed error; the model cannot show that, and `RecordedOn.NoCandidateNoDate` and `RecordedOn.OnlyCandidateKeysMatter` rely on it.
- `str()` of a tag value is taken as already applied: tag values are strings or lists of strings.
- An `AttributeError` from a missing `length`, `sample_rate` or `channels` on the stream info is not modelled; only `bitrate` may be missing.
- Exceptions outside the `try` block (from `fromtimestamp`) and `BaseException`s that `except Exception` does not catch are not modelled.
- Exception class hierarchies are flattened: an exception carries the set of classes `isinstance` accepts it for.
- The insertion order of the dictionary's keys is not modelled: the record is a map.
- `src/media_meta/__init__.py` only re-exports `extract_metadata` and is not part of this model.
