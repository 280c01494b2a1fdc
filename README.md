# acq2mat, modelled in Dafny

acq2mat converts a recording made with Biopac's AcqKnowledge software (an
`.acq` file, decoded by the `bioread` package) into a MATLAB `.mat` file. This
project models the part of acq2mat.py that decides what ends up in that file:

- `clean` (`identifier.dfy`, module `Identifier`): a channel's free-text label
  made into a MATLAB struct field name. The label is lower-cased and stripped,
  every character outside `[0-9a-zA-Z_]` is deleted, and then the leading run
  of non-letters is deleted. The steps are pure functions on `string`.
- `parse_data`, event half (`events.dfy`, module `Events`): the markers whose
  type code is not `"nrto"` are kept, in file order. A None in any of the six
  attributes the table reads is replaced by NaN, and the sample index is moved
  from 0-based to 1-based. The markers are collected into six parallel
  columns. An attribute is an `Attr<V>`, which is `None`, `NaN` or `Val(v)`.
- `parse_data` itself (`acq2mat.dfy`, module `Acq2Mat`): the method
  `ParseData` runs the two loops of the source. The channel loop writes each
  channel's `{wave, Fs, unit}` struct under its cleaned name. It is modelled by
  `StoreChannels`, which stores each channel under any key function; its
  lemmas hold for every key and so for `clean`. The event loop appends one row
  per kept marker. Afterwards `event_markers` is stored. The method is proved
  equal to the functional description `Normalise`, and the lemmas are stated
  about `Normalise`. `Wrap` is the `{'d': d}` step of the main block.

A channel's samples (`wave`) and the object a marker refers to (`channel`) are
type parameters. They are copied and never inspected.

## Model

| member | source | states |
|---|---|---|
| Identifier.Lower | acq2mat.py:40 | `s.lower()`, character by character through `LowerChar` (one character's lower case); its meaning on ASCII labels is stated by `LowerOfAscii` |
| Identifier.Strip | acq2mat.py:40 | `s.strip()`: `TrimStart` and `TrimEnd` remove leading and trailing characters of `IsSpace`, Python's `isspace` set; `StripHasNoEffect` shows it never changes the result |
| Identifier.KeepWordChars | acq2mat.py:41 | `re.sub('[^0-9a-zA-Z_]', '', s)`: the characters of `[0-9a-zA-Z_]`, in order; stated by `KeepWordCharsKeeps`, `KeepWordCharsCount` and `KeepWordCharsIsSubsequence` |
| Identifier.DropLeadingNonLetters | acq2mat.py:42 | `re.sub('^[^a-zA-Z]+', '', s)`: the suffix from the first letter on; stated by `DropLeadingNonLettersSuffix` |
| Identifier.Clean | acq2mat.py:35-44 | `clean`: the three steps in order; stated by the `Clean…` lemmas below |
| Identifier.LowerHasNoUpper | acq2mat.py:40 | after lower-casing, no ASCII capital is left |
| Identifier.LowerOfAscii | acq2mat.py:40 | on an ASCII label, lower-casing keeps the length, maps each capital to its own small letter and keeps every other character, position by position |
| Identifier.KeepWordCharsKeeps | acq2mat.py:41 | the character filter returns only `[0-9a-zA-Z_]` characters, is never longer than its input, and adds no capital |
| Identifier.KeepWordCharsCount | acq2mat.py:41 | the filter keeps every occurrence of each `[0-9a-zA-Z_]` character and no occurrence of any other character |
| Identifier.KeepWordCharsIsSubsequence | acq2mat.py:41 | the filter only deletes characters, so what it keeps stays in order |
| Identifier.DropLeadingNonLettersSuffix | acq2mat.py:42 | removing the leading non-letters returns a suffix of its input that is empty or starts with a letter, and the cut-off prefix holds no letter |
| Identifier.KeepWordCharsAppend | acq2mat.py:41 | the character filter distributes over concatenation |
| Identifier.StripHasNoEffect | acq2mat.py:40-42 | `strip()` never changes the result of `clean`, since whitespace is deleted by the filter anyway |
| Identifier.CleanIsName | acq2mat.py:35-44 | every result of `clean` consists of lower-case letters, digits and `_`, and is empty or starts with a letter |
| Identifier.CleanIsSuffixFromFirstLetter | acq2mat.py:41-42 | `q` is `clean(s)` exactly when `q` is the suffix of the filtered lower-cased label that starts at its first letter, or is empty when it has no letter |
| Identifier.CleanIsSubsequence | acq2mat.py:40-42 | `clean(s)` is obtained from `s.lower()` by deleting characters, and is never longer than `s` |
| Identifier.CleanFixedPoints | acq2mat.py:35-44 | `clean(s) == s` exactly when `s` is already a field name `clean` can produce |
| Identifier.CleanIdempotent | acq2mat.py:35-44 | cleaning a cleaned name changes nothing |
| Events.ValidEvents | acq2mat.py:60 | `valid_events`: the markers satisfying `IsKept` (type code not `"nrto"`), in file order; stated by `ValidEventsExact` against the positions `KeptPositions` |
| Events.FillNone | acq2mat.py:72 | a marker with None replaced by NaN in each of the six attributes the table reads, one attribute at a time by `Fill` |
| Events.PlusOne | acq2mat.py:75 | `sample_index + 1` after the substitution: an index is moved up by one and NaN stays NaN |
| Events.AddRow | acq2mat.py:74-79 | one iteration of the event loop: the filled marker's six attributes appended to the six columns, the sample index plus one |
| Events.Columns | acq2mat.py:62-79 | the six columns the event loop builds from the kept markers, one row per marker in every column; row contents stated by `ColumnsRow` |
| Events.EventTable | acq2mat.py:60-79 | the `event_markers` table of a decoded file: the columns built from the kept markers; stated by `EventTableRows` and `EventTableHasNoNone` |
| Events.ValidEventsExact | acq2mat.py:60 | `valid_events` holds the marker at each kept position, and those positions are increasing and are exactly the positions whose type code is not `"nrto"` |
| Events.ValidEventsAppend | acq2mat.py:60 | filtering a concatenation filters each part, so no marker moves past another |
| Events.ColumnsRow | acq2mat.py:70-79 | row i of each of the six columns holds the i-th marker's attribute, None replaced by NaN, and the sample index plus one (NaN stays NaN), as the predicate `IsRowOf` states |
| Events.EventTableRows | acq2mat.py:60-79 | the event table has one row per kept marker in all six columns, and row i is `IsRowOf` the i-th kept marker of the file |
| Events.EventTableHasNoNone | acq2mat.py:60-79 | no cell of the event table is None, and no row has type code `"nrto"` |
| Acq2Mat.FieldName | acq2mat.py:53 | `clean(channel.name)`, the field a channel is stored under |
| Acq2Mat.ChannelStructOf | acq2mat.py:53-57 | the `{'wave', 'Fs', 'unit'}` struct of a channel: its data, sample rate and units |
| Acq2Mat.StoreChannels | acq2mat.py:51-57 | the channel loop for any key function: each channel's `{wave, Fs, unit}` struct stored under its key, in file order; stated by the `StoreChannels…` lemmas |
| Acq2Mat.ChannelFields | acq2mat.py:51-57 | the channel loop as written, with `clean(channel.name)` as the key |
| Acq2Mat.Normalise | acq2mat.py:46-83 | the struct `parse_data` returns: the channel fields, then the event table under `event_markers`; stated by `NormaliseFields` and `NormaliseChannel` |
| Acq2Mat.Wrap | acq2mat.py:90 | `{'d': d}`: the struct as the single MATLAB variable `d`; stated by `OneChannelNoEvents` |
| Acq2Mat.ParseData | acq2mat.py:46-83 | the struct built by the two loops equals `Normalise` of the decoded file |
| Acq2Mat.StoreChannelsKeys | acq2mat.py:51-57 | after the channel loop, a key is a field exactly when it is the key of some channel |
| Acq2Mat.StoreChannelsLastWins | acq2mat.py:51-57 | a channel whose key no later channel shares is stored with its data, sample rate and units unchanged, so on a shared key the later channel wins |
| Acq2Mat.StoreChannelsAreChannels | acq2mat.py:51-57 | every field the channel loop writes holds a channel struct |
| Acq2Mat.NormaliseFields | acq2mat.py:46-83 | a field of the result is `event_markers` or the cleaned name of some channel, and each of those is a field; `event_markers` holds the event table even if a channel name cleaned to it; every other field is a name `clean` can return (possibly empty) and holds a channel struct |
| Acq2Mat.NormaliseChannel | acq2mat.py:51-81 | a channel not shadowed by a later channel or by `event_markers` reaches the returned struct unchanged |
| Acq2Mat.OneChannelNoEvents | acq2mat.py:89-90 | a file with one channel whose label is already a field name other than `event_markers`, and no markers, is saved as `d` holding that channel and six empty columns |

## Left out

- Command-line parsing (acq2mat.py:16-33), including the default output name made by replacing `.acq` with `.mat`.
- Reading the file with `bioread.read_file` (acq2mat.py:88) and writing it with `scipy.io.savemat` (acq2mat.py:92); the model starts from the decoded channels and markers and ends at the dictionary handed to savemat.
- Floating point: NaN is the value `NaN` of `Attr`, and no arithmetic is done on waveforms; `Fs` is a `real` that is only copied.
- The `setattr` step (acq2mat.py:72) changes the reader's marker objects in place, including attributes the table never reads; the model computes the substituted marker as a value and does not model that side effect or any aliasing with the reader's objects.
- `chan_name` (acq2mat.py:52) is computed and never used, so it is not modelled.
- Reading several input files and concatenating them: the program takes a single `file` argument, so the model follows the code and converts one file.
- The order of fields in the dictionaries is not modelled (a Dafny `map` has none); the order of rows within each column is.
- Identifier.LowerChar: `str.lower()` is modelled for ASCII capitals, the Kelvin sign and U+0130; every other character is kept as it is. For an ASCII character that is not a capital this is exact, since it is its own lower case. For any other non-ASCII character it gives the same result after the character filter: both the character and its Python lower case hold no character of `[0-9a-zA-Z_]`, so the filter deletes either one entirely.
- Events.FillNone: the source replaces None only in the instance attributes of the reader's marker object (`event.__dict__`); the model assumes that all six attributes the table reads (`text`, `sample_index`, `type_code`, `type`, `channel_number`, `channel`) are instance attributes. If the reader computed one of them as a property, its None would not be replaced. For `sample_index`, `event.sample_index + 1` (acq2mat.py:75) would then raise TypeError and no table would be built. For the other five attributes the None would reach the table, and `EventTableHasNoNone` and `ColumnsRow` would not hold for that attribute. The reader's class is not part of this model.
- Events.PlusOne: the sample index is taken to be an integer when present; `sample_index + 1` on any other Python value is not modelled.
- A label with no letter cleans to the empty string, which MATLAB does not accept as a field name; the source does not reject it and neither does the model.
