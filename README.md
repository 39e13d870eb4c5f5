# Hum-To-Search: a Dafny model of the matching and ingestion core

Hum-To-Search identifies a song from a hummed recording. A hummed pitch track
and every stored song become key-normalised melodic contours: semitone values
shifted so that their median is 0. Each contour is then resampled to a fixed
length by linear interpolation and z-scored. The catalog is ranked by
dynamic-time-warping (DTW) distance to the query. Songs enter the catalog from
MIDI files. A song's title becomes a URL-safe slug, and its melody is the
sounding `note_on` messages of the longest track, or of all tracks for the
folder importer. A content fingerprint detects duplicates before anything is
saved.

The model is split into modules:

| module | file | what it models |
|---|---|---|
| `Results` | `results.dfy` | the error cases the scripts raise, as a `Result` value |
| `Contour` | `contour.dfy` | `np.median` (via a sort) and median centring |
| `Resampling` | `resampling.dfy` | `np.linspace` and `np.interp`, as used by `resample_len` and `resample` |
| `Scaling` | `scaling.dfy` | `zscore` |
| `Dtw` | `dtw.dfy` | librosa's DTW cumulative-cost table: the recurrence, a method that fills an `array2`, and warping paths |
| `Matching` | `matching.dfy` | `run_match`: scoring every entry, the stable sort, and `[:top_k]` |
| `Slug` | `slug.dfy` | `slugify` |
| `Midi` | `midi.dfy` | note extraction from the longest track and from all tracks flattened |
| `Ingest` | `ingest.dfy` | `load_existing_fingerprints`, `dup_slugs`, and the main block of `add_song_from_midi.py` |

Arithmetic is exact (`real`, `int`). The source's standard deviation is a
parameter, as is the length of librosa's warping path. So are the SHA-1
fingerprint function and the user's answers to prompts. Stored metadata
files, catalog entries and MIDI tracks are in-memory inputs, given in the
order the directory scan would yield them.

Two edge cases of the code are modelled as the code behaves:

- An empty pitch sequence is not an error when it is centred. `np.median` of
  an empty array is NaN, and subtracting it gives an empty array. So
  `Contour.Centre([])` is `[]`. The error appears one step later:
  `np.interp` refuses an empty set of sample points
  (`Resampling.Resample` gives `Err(EmptySamplePoints)`).
- A single sample is enough to resample: `np.linspace(0, 1, 1)` is `[0.0]`,
  and interpolation on one point is constant (`Resampling.ResampleSingleton`).
  Two samples are not required.

## Model

| member | source | states |
|---|---|---|
| Contour.SortReals | src/match.py:28 | the sort behind `np.median` keeps the length; its order and contents are stated by `SortRealsSorted` |
| Contour.SortRealsSorted | src/match.py:28 | the sort behind `np.median` returns an ascending permutation (same multiset) of its input |
| Contour.Median | src/match.py:28 | for a non-empty sequence, the median lies between some element below it and some element above it (middle value, or mean of the two middle values) |
| Contour.MedianShift | src/match.py:28 | adding k to every value adds k to the median |
| Contour.Centre | src/match.py:28-29 | centring keeps the length and every pairwise difference |
| Contour.CentreMedianZero | src/match.py:28-29 | a centred non-empty contour has median 0 |
| Contour.CentreShiftInvariant | src/match.py:28-29 | centring is key-invariant: shifting every value by k does not change the output |
| Contour.CentreIdempotent | src/match.py:28-29 | centring a centred contour changes nothing |
| Contour.NormalizeKey | src/add_song_from_midi.py:29-33 | normalised MIDI notes keep their length and integer differences; the median is 0 when there is a note |
| Contour.NormalizeKeyTransposeInvariant | src/add_midis_from_folder.py:15-18 | transposing all notes by k semitones leaves `normalize_key` unchanged |
| Resampling.Linspace | src/match.py:45-46 | `linspace(0,1,n)` has n points, starts at 0, ends at 1 (n ≥ 2), is strictly increasing and stays in [0,1] |
| Resampling.Locate | src/match.py:47 | the interpolation segment found for t starts at or below t, and t is before the next sample point |
| Resampling.Interp | src/match.py:47 | `np.interp` clamps: before the first sample point it gives the first value, after the last it gives the last value |
| Resampling.Resample | src/match.py:44-47 | succeeds exactly when length ≥ 0 and x is non-empty, with `length` values; a negative length and empty sample points are the two errors |
| Resampling.PlotResample | src/debug_plot_contours.py:14-16 | the default L = 128 gives 128 values for any non-empty x, and an error for an empty x |
| Resampling.InterpAtSample | src/match.py:47 | interpolation at a sample point returns that sample's value exactly |
| Resampling.InterpWithin | src/match.py:47 | an interpolated value lies within any bounds that hold every sample (convex combination, clamping outside the range) |
| Resampling.ResampleIdentity | src/match.py:45-47 | resampling x to its own length gives x back |
| Resampling.ResampleEndpoints | src/match.py:45-47 | the first output is x[0]; for length ≥ 2 the last output is the last sample |
| Resampling.ResampleSingleton | src/debug_plot_contours.py:15-16 | one sample resamples to a constant sequence of that value |
| Resampling.ResampleWithin | src/debug_plot_contours.py:16 | every resampled value lies within any bounds that hold all of x |
| Resampling.InterpAffine | src/match.py:47 | when every sample lies on one line α·x + β, interpolation at any t in the sampled range returns α·t + β |
| Resampling.ResampleInterps | src/match.py:44-47 | for a non-empty x and length ≥ 0, resampling succeeds and each output is `np.interp` at the matching point of `linspace(0, 1, length)` over `linspace(0, 1, len(x))` |
| Resampling.ResampleAffine | src/match.py:44-47 | samples on a line over the source grid resample to values on the same line over the target grid |
| Scaling.Mean | src/match.py:50 | n times the mean is the sum; an empty sequence has mean 0 |
| Scaling.Standardize | src/match.py:52 | (x − c)/d keeps the length, and multiplying by d and adding c gives back every input value |
| Scaling.SumStandardize | src/match.py:50-52 | the sum of (x - c)/d is (sum x - n·c)/d |
| Scaling.ZScore | src/match.py:49-52 | z-scoring keeps the length and sums to 0; its divisor sd + 1e-8 is positive, and each output times that divisor plus the mean is the input value |
| Scaling.ZScoreKeepsOrder | src/match.py:52 | z-scoring keeps the order between any two values, in both directions |
| Scaling.ZScoreShiftInvariant | src/match.py:49-52 | for the same sd, shifting the input by a constant leaves the z-scores unchanged |
| Dtw.Cost | src/match.py:55-56 | the euclidean metric on one-value features is ≥ 0 and is 0 exactly when the two values are equal |
| Dtw.Min3 | src/match.py:56 | the step rule's minimum is at or below each predecessor's cost and equals one of them |
| Dtw.Divisor | src/match.py:57 | `max(1, len(wp))` is at least 1, at least the path length, and is the path length when that is positive |
| Dtw.DtwDistance | src/match.py:54-57 | the distance exists exactly when both sequences are non-empty, and it is ≥ 0 |
| Dtw.AccNonNegative | src/match.py:56 | every cumulative cost is ≥ 0 |
| Dtw.AccSelfZero | src/match.py:56 | a sequence against itself has cumulative cost 0 on the diagonal |
| Dtw.AccSymmetric | src/match.py:56 | D[i,j] for (a,b) equals D[j,i] for (b,a) |
| Dtw.DtwDistanceSelf | src/match.py:54-57 | the distance of a sequence to itself is exactly 0 |
| Dtw.DtwCostSymmetric | src/match.py:56 | D[-1,-1] is the same with a and b swapped |
| Dtw.WarpingPathPrefix | src/match.py:56 | dropping the last cell of a warping path leaves a warping path that ends one step earlier |
| Dtw.WarpingPathShape | src/match.py:56 | a warping path to (i,j) stays in the table and has between max(i,j)+1 and i+j+1 cells |
| Dtw.AccLowerBound | src/match.py:56 | D[i,j] is at most the cost of every warping path from (0,0) to (i,j) |
| Dtw.AccStepBound | src/match.py:56 | a cell's cumulative cost is at most its own cost plus the cumulative cost of any allowed predecessor |
| Dtw.Predecessor | src/match.py:56 | each cell after the first has an allowed predecessor step that attains its cumulative cost |
| Dtw.Backtrack | src/match.py:56 | some warping path attains D[i,j], so D[i,j] is the minimum over warping paths |
| Dtw.NextCell | src/match.py:56 | from a table filled up to (i,j), the next cell's value is D[i,j] |
| Dtw.FillRow | src/match.py:56 | filling one row keeps the filled-prefix invariant one row further |
| Dtw.FillCostTable | src/match.py:56 | the filled array holds D[i,j] for every cell |
| Dtw.ComputeDtwDistance | src/match.py:54-57 | the table-filling method returns the same result as the recurrence-based distance |
| Matching.Prepare | src/match.py:63-64 | resample then z-score: succeeds exactly for a non-empty input and length ≥ 0, with `length` values |
| Matching.Score | src/match.py:69-71 | an entry gets a distance exactly when its contour and the length are non-empty |
| Matching.ScoreAll | src/match.py:67-72 | the results list has one result per entry, in catalog order, with each entry's title and its own distance |
| Matching.ScoreAllOk | src/match.py:68-72 | the scoring loop completes exactly when every entry's score succeeds (vacuously for an empty catalog) |
| Matching.ScoreAllPrefixErr | src/match.py:68-72 | once an entry fails, the whole loop fails with that entry's error |
| Matching.InsertByDistance | src/match.py:74 | insertion adds one element; where it goes is stated by the three lemmas below |
| Matching.InsertByDistanceSorted | src/match.py:74 | inserting into a sorted ranking keeps it sorted |
| Matching.InsertByDistancePermutes | src/match.py:74 | insertion adds exactly the one new result |
| Matching.InsertByDistanceStable | src/match.py:74 | insertion puts the new result after all results with the same distance |
| Matching.SortByDistance | src/match.py:74 | the sort keeps the number of results; order, contents and stability are stated by the two lemmas below |
| Matching.SortByDistanceSorted | src/match.py:74 | `results.sort(key=distance)` is ascending and a permutation |
| Matching.SortByDistanceStable | src/match.py:74 | among results with equal distance, the catalog order is kept |
| Matching.Take | src/match.py:75 | `results[:top_k]` is a prefix of length min(top_k, n), with Python's meaning for a negative top_k |
| Matching.RunMatch | src/match.py:66-75 | the append loop, the sort and the cut give exactly the ranking `Match` defines |
| Matching.Match | src/match.py:59-75 | a ranking exists only for a non-empty catalog and never has more results than entries |
| Matching.MatchEmptyCatalog | src/match.py:40-41 | an empty catalog is an error once the query is prepared |
| Matching.MatchSucceeds | src/match.py:59-75 | the match succeeds exactly when the query, the length, the catalog and every stored contour are non-empty |
| Matching.MatchRanking | src/match.py:74-75 | a successful ranking is sorted ascending and, for top_k ≥ 0, has min(top_k, number of entries) results |
| Matching.RankingExample | src/match.py:74-75 | distances 0.1, 0.5 and 0.05 with top_k = 2 rank c, then a |
| Slug.LStrip | src/add_song_from_midi.py:14 | `lstrip(cs)` returns a suffix of s, every character it removes is in cs, and the result is empty or starts outside cs |
| Slug.RStrip | src/add_song_from_midi.py:14 | `rstrip(cs)` returns a prefix of s, every character it removes is in cs, and the result is empty or ends outside cs |
| Slug.Strip | src/add_song_from_midi.py:14 | `strip(cs)` returns a slice of s with only characters of cs cut off before and after it, and neither end of the result is in cs |
| Slug.Lower | src/add_song_from_midi.py:14 | lower-casing keeps the length, turns each of A–Z into the letter 32 code points later (a–z), keeps every other character, and leaves no upper-case letter |
| Slug.SkipRun | src/add_midis_from_folder.py:13 | the run a `[^a-z0-9]+` match consumes is removed: everything dropped is outside [a-z0-9], and the rest is a suffix that is empty or starts inside [a-z0-9] |
| Slug.Collapse | src/add_midis_from_folder.py:13 | the substitution yields only `[a-z0-9-]`, never two adjacent dashes, and keeps a leading alphanumeric; its exact output is stated by `CollapseShape` |
| Slug.Slugify | src/add_song_from_midi.py:13-14 | a slug has only `[a-z0-9-]`, no leading or trailing dash and no double dash; its exact content is stated by `SlugifyWords` |
| Slug.CollapseFixed | src/add_song_from_midi.py:14 | the substitution leaves a string of slug characters without double dashes unchanged |
| Slug.StripFixed | src/add_song_from_midi.py:14 | stripping a string that neither starts nor ends with a stripped character changes nothing |
| Slug.LowerFixed | src/add_song_from_midi.py:14 | lower-casing leaves slug characters unchanged |
| Slug.SlugifyFixed | src/add_midis_from_folder.py:12-13 | every slug is its own slug |
| Slug.SlugifyIdempotent | src/add_song_from_midi.py:13-14 | `slugify(slugify(s)) == slugify(s)` |
| Slug.Word | src/add_midis_from_folder.py:13 | the longest prefix made of [a-z0-9]: a prefix of s, all alphanumeric, followed by the end of s or a character outside [a-z0-9] |
| Slug.Words | src/add_midis_from_folder.py:13 | each listed run is a non-empty string of [a-z0-9] |
| Slug.JoinEnds | src/add_song_from_midi.py:14 | runs joined by dashes are empty only when there are no runs, and otherwise start and end alphanumeric, so `strip("-")` keeps them whole |
| Slug.CollapseShape | src/add_midis_from_folder.py:13 | the substitution's output is an optional dash, the input's maximal [a-z0-9] runs joined by single dashes, and an optional dash |
| Slug.CollapseStripJoins | src/add_song_from_midi.py:14 | the substitution followed by `strip("-")` gives exactly the [a-z0-9] runs joined by single dashes |
| Slug.SlugifyJoinsWords | src/add_song_from_midi.py:13-14 | the slug is the [a-z0-9] runs of the stripped, lower-cased title joined by single dashes |
| Slug.WordsIgnoreWhitespace | src/add_song_from_midi.py:14 | stripping whitespace before lower-casing does not change the [a-z0-9] runs |
| Slug.SlugifyWords | src/add_song_from_midi.py:13-14 | `slugify(name)` is `"-".join` of the maximal [a-z0-9] runs of `name.lower()` |
| Midi.NoteOns | src/add_song_from_midi.py:24-26 | the kept notes are no more than the messages |
| Midi.NoteOnsSingle | src/add_song_from_midi.py:25-26 | one message gives its note exactly when it is a `note_on` with velocity > 0 |
| Midi.NoteOnsAppend | src/add_midis_from_folder.py:24 | the notes of two tracks joined are the notes of each, in order |
| Midi.LongestTrack | src/add_song_from_midi.py:22 | `max(key=len)` picks a longest track, and the first of them on ties |
| Midi.CollectNotes | src/add_song_from_midi.py:23-27 | the append loop keeps, in order, exactly the sounding note numbers |
| Midi.MelodyNotes | src/add_song_from_midi.py:21-27 | the melody is the sounding notes of the first longest track; no tracks is an error |
| Midi.FlattenedNotes | src/add_midis_from_folder.py:24 | the nested comprehension gives the sounding notes of all tracks concatenated, in track then message order |
| Midi.MidiToContour | src/add_midis_from_folder.py:20-28 | the notes are all sounding notes across tracks; rel has the same length, the same pairwise differences, and median 0 when there is a note |
| Ingest.LoadFingerprints | src/add_song_from_midi.py:43-53 | the loop builds the fingerprint map the records define, skipping unreadable and incomplete records |
| Ingest.FingerprintMap | src/add_song_from_midi.py:43-53 | every stored fingerprint is the fingerprint of some record that supplies that slug |
| Ingest.FingerprintMapDomain | src/add_song_from_midi.py:49-50 | a slug is in the map exactly when some record supplies both it and a fingerprint |
| Ingest.FingerprintMapLast | src/add_song_from_midi.py:44-52 | the stored fingerprint is that of the last record supplying the slug |
| Ingest.DupSlugs | src/add_song_from_midi.py:92 | the new slug itself is never reported as a duplicate of its own content |
| Ingest.LastProviderExists | src/add_song_from_midi.py:45-52 | a slug that some record supplies has a last record supplying it |
| Ingest.DupSlugsFromRecords | src/add_song_from_midi.py:43-53 | a slug is reported as a duplicate exactly when it is not the new slug and the last record supplying it carries the new fingerprint |
| Ingest.ConfirmsIff | src/add_song_from_midi.py:86-87 | `resp.strip().lower() == "y"` holds exactly when the answer is one y or Y with only whitespace around it (the same test guards line 94-95) |
| Ingest.AddSongSpec | src/add_song_from_midi.py:62-96 | a saved record has a non-empty title, a valid slug, non-empty notes, rel of the same length, and the fingerprint of its notes |
| Ingest.AddSong | src/add_song_from_midi.py:62-96 | the main block gives the same outcome as the stepwise definition: title, tracks, notes, overwrite and duplicate checks in the source's order |
| Ingest.AddSongRejectsEmptyMelody | src/add_song_from_midi.py:69-72 | a melody without notes is refused before normalisation and before any check or save |
| Ingest.AddSongRecord | src/add_song_from_midi.py:63-96 | a saved record has a valid slug, the longest track's notes (non-empty), rel of equal length with median 0, the notes' fingerprint, and was saved over a taken slug or a content duplicate only after a "y" |
| Ingest.AddSongAccepts | src/add_song_from_midi.py:84-96 | a non-empty melody under a fresh or confirmed slug, with no duplicate or a confirmed one, is saved |

## Left out

- Audio capture, pitch tracking and plotting (`record.py`, `pitch_extract.py`, `visualize_pitch.py`, the plotting in `debug_plot_contours.py`): device I/O and floating-point signal processing. The query reaches `Matching.Match` as a pitch track already in MIDI units.
- File and JSON I/O, `np.save`/`np.load`, `load_latest_wav`, and the directory scans of `load_db` and `load_existing_fingerprints`: these are inputs. Catalog entries and metadata records are sequences in scan order, and an unreadable metadata file is the `Unreadable` record.
- `list_songs.py` and `maintenance_backfill_fingerprints.py`: a directory listing and an I/O loop around the hash.
- `melody_fingerprint` (SHA-1 over float32 bytes): a function parameter with no properties assumed.
- `librosa.midi_to_hz`, `hz_to_midi` and `load`: log and exp floating point, and foreign calls. The `hz` arrays are not modelled.
- Contour.NormalizeKey: the float32 cast is not modelled; values are exact reals.
- Resampling.Resample: the float32 cast of `resample_len` is not modelled.
- Scaling.Mean: `np.mean` of an empty array is NaN; here it is 0. It only ever feeds an empty output.
- Scaling.ZScore: the standard deviation is a non-negative parameter, not the square root of the variance. Inside `Matching` it is a function `std` assumed non-negative, and `1e-8` is an exact rational.
- Dtw.DtwDistance: the divisor uses an abstract path length `pathLen`, not the length of librosa's own backtracked path, whose tie-breaking is not visible. `Dtw.Backtrack` is an independent reference path with the optimal cost and is not claimed to be librosa's.
- Matching.SortByDistance: `list.sort` sorts in place. It is modelled as a function on values; a stable sort's output is unique, so the resulting order is the same.
- Matching.Match: ranking starts from the query's pitch track. `load_db`'s check that each `rel_file` exists before it is read is part of the left-out scan.
- Ingest.AddSong: the MIDI path prompt and its existence check come before the title and are not modelled. Nor are the file writes after the checks. The existence of any of the slug's four files is a boolean `slugTaken`.
- Ingest.AddSong: each prompt answer is a string, and `SystemExit` is an error value.
- Ingest.DupSlugs: `dup_slugs` is a list in dictionary order; it is modelled as a set, and only its emptiness affects control flow.
- Slug.Lower: only ASCII upper-case letters are lowered. Python's full Unicode `str.lower` is not modelled.
- Slug.Strip: `str.strip()` is modelled with ASCII whitespace plus the separator control characters; Unicode spaces are not.
- Midi.MelodyNotes: MIDI file parsing by `mido` is not modelled. A message is either a `note_on` with its note and velocity, or another kind.
- The folder importer's `__main__` loop: it only saves files for each MIDI file in sorted order.
