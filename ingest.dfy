/**
 * Adding one song from a MIDI file: title and slug, melody extraction, key
 * normalisation, and the duplicate checks against the catalog's stored
 * fingerprints. The fingerprint itself (a SHA-1 digest) is a parameter, the
 * catalog's metadata files arrive already read, and the user's answers to the
 * two confirmation prompts are parameters.
 */
module Ingest {
  import opened Results
  import Slug
  import Contour
  import Midi

  /** One metadata file as load_existing_fingerprints meets it: unreadable, or
      a JSON object that may or may not carry "slug" and "fingerprint". */
  datatype MetaRecord =
    | Unreadable
    | Meta(slug: Option<string>, fingerprint: Option<string>)

  /** What the script writes for a new song. */
  datatype SongRecord = SongRecord(title: string, slug: string, notes: seq<int>, rel: seq<real>, fingerprint: string)

  /** The record would put a fingerprint under slug `s`. */
  predicate Provides(m: MetaRecord, s: string) {
    m.Meta? && m.slug == Some(s) && m.fingerprint.Some?
  }

  /** The fps dictionary after reading `metas` in order: a record with both
      keys stores its fingerprint under its slug, a later record overwriting
      an earlier one; every other record is skipped. */
  function FingerprintMap(metas: seq<MetaRecord>): (fps: map<string, string>)
    ensures forall s :: s in fps ==>
              exists i :: 0 <= i < |metas| && Provides(metas[i], s) && metas[i].fingerprint.value == fps[s]
  {
    if metas == [] then map[]
    else
      var fps := FingerprintMap(metas[..|metas| - 1]);
      var m := metas[|metas| - 1];
      if m.Meta? && m.slug.Some? && m.fingerprint.Some? then fps[m.slug.value := m.fingerprint.value] else fps
  }

  /** load_existing_fingerprints over already read metadata. */
  method LoadFingerprints(metas: seq<MetaRecord>) returns (fps: map<string, string>)
    ensures fps == FingerprintMap(metas)
  {
    fps := map[];
    var i := 0;
    while i < |metas|
      invariant 0 <= i <= |metas|
      invariant fps == FingerprintMap(metas[..i])
    {
      var m := metas[i];
      assert metas[..i + 1][..i] == metas[..i];
      if m.Meta? && m.fingerprint.Some? && m.slug.Some? {
        fps := fps[m.slug.value := m.fingerprint.value];
      }
      i := i + 1;
    }
    assert metas[..i] == metas;
  }

  /** A slug is in the map exactly when some record provides a fingerprint for it. */
  lemma {:induction false} FingerprintMapDomain(metas: seq<MetaRecord>, s: string)
    ensures s in FingerprintMap(metas) <==> exists i :: 0 <= i < |metas| && Provides(metas[i], s)
  {
    if metas != [] {
      var front := metas[..|metas| - 1];
      FingerprintMapDomain(front, s);
      if s in FingerprintMap(front) {
        var i :| 0 <= i < |front| && Provides(front[i], s);
        assert Provides(metas[i], s);
      }
      if exists i :: 0 <= i < |metas| && Provides(metas[i], s) {
        var i :| 0 <= i < |metas| && Provides(metas[i], s);
        if i < |front| {
          assert Provides(front[i], s);
        }
      }
    }
  }

  /** Record `i` is the last one that provides a fingerprint for slug `s`. */
  predicate LastProvider(metas: seq<MetaRecord>, i: int, s: string) {
    0 <= i < |metas| && Provides(metas[i], s) && forall j :: i < j < |metas| ==> !Provides(metas[j], s)
  }

  /** The stored fingerprint is the one of the last record that provides the slug. */
  lemma {:induction false} FingerprintMapLast(metas: seq<MetaRecord>, i: int, s: string)
    requires LastProvider(metas, i, s)
    ensures s in FingerprintMap(metas) && FingerprintMap(metas)[s] == metas[i].fingerprint.value
  {
    var front := metas[..|metas| - 1];
    if i < |metas| - 1 {
      assert LastProvider(front, i, s);
      FingerprintMapLast(front, i, s);
    }
  }

  /** dup_slugs: the stored slugs other than `slug` whose fingerprint is `fp`. */
  function DupSlugs(fps: map<string, string>, fp: string, slug: string): (dups: set<string>)
    ensures slug !in dups
    ensures forall s :: s in dups <==> s in fps && fps[s] == fp && s != slug
  {
    set s | s in fps && fps[s] == fp && s != slug
  }

  /** Any slug some record provides has a last record that provides it. */
  lemma {:induction false} LastProviderExists(metas: seq<MetaRecord>, i: int, s: string)
    requires 0 <= i < |metas| && Provides(metas[i], s)
    ensures exists k :: LastProvider(metas, k, s)
  {
    var last := |metas| - 1;
    if Provides(metas[last], s) {
      assert LastProvider(metas, last, s);
    } else {
      var front := metas[..last];
      assert i < last && Provides(front[i], s);
      LastProviderExists(front, i, s);
      var k :| LastProvider(front, k, s);
      assert LastProvider(metas, k, s);
    }
  }

  /** dup_slugs over the stored records: a slug other than the new one is a
      duplicate exactly when the last record that provides it carries the new
      fingerprint. */
  lemma DupSlugsFromRecords(metas: seq<MetaRecord>, fp: string, slug: string, s: string)
    ensures s in DupSlugs(FingerprintMap(metas), fp, slug) <==>
            s != slug && exists i :: LastProvider(metas, i, s) && metas[i].fingerprint.value == fp
  {
    if s in FingerprintMap(metas) {
      FingerprintMapDomain(metas, s);
      var i0 :| 0 <= i0 < |metas| && Provides(metas[i0], s);
      LastProviderExists(metas, i0, s);
      var k :| LastProvider(metas, k, s);
      FingerprintMapLast(metas, k, s);
      assert forall i :: LastProvider(metas, i, s) ==> i == k;
    } else {
      forall i | LastProvider(metas, i, s)
        ensures false
      {
        FingerprintMapLast(metas, i, s);
      }
    }
  }

  /** input(...).strip().lower() == "y" */
  predicate Confirms(answer: string) {
    Slug.Lower(Slug.Strip(answer, Slug.Whitespace)) == "y"
  }

  /** `answer` is a single y or Y with only whitespace around it. */
  ghost predicate SoleYes(answer: string, k: int) {
    && 0 <= k < |answer| && (answer[k] == 'y' || answer[k] == 'Y')
    && forall j :: 0 <= j < |answer| && j != k ==> answer[j] in Slug.Whitespace
  }

  /** A prompt is confirmed exactly when the answer is one y or Y and otherwise whitespace. */
  lemma ConfirmsIff(answer: string)
    ensures Confirms(answer) <==> exists k :: SoleYes(answer, k)
  {
    if Confirms(answer) {
      ConfirmsHasYes(answer);
    }
    if exists k :: SoleYes(answer, k) {
      var k :| SoleYes(answer, k);
      SoleYesConfirms(answer, k);
    }
  }

  lemma ConfirmsHasYes(answer: string)
    requires Confirms(answer)
    ensures exists k :: SoleYes(answer, k)
  {
    var r := Slug.Strip(answer, Slug.Whitespace);
    var a :| Slug.StrippedAt(answer, Slug.Whitespace, a, r);
    assert |r| == 1 && Slug.Lower(r)[0] == 'y';
    assert r[0] == 'y' || r[0] == 'Y';
    assert SoleYes(answer, a);
  }

  lemma SoleYesConfirms(answer: string, k: int)
    requires SoleYes(answer, k)
    ensures Confirms(answer)
  {
    var r := Slug.Strip(answer, Slug.Whitespace);
    var a :| Slug.StrippedAt(answer, Slug.Whitespace, a, r);
    assert answer[k] !in Slug.Whitespace;
    assert r != [];
    assert a == k;
    assert a + |r| - 1 == k;
    assert r == [answer[k]];
    assert Slug.Lower(r) == "y";
  }

  /** The main block of add_song_from_midi, from the typed title to the record
      that gets saved. `fingerprintOf` stands for melody_fingerprint,
      `slugTaken` for the existence of any file named after the slug, and the
      answers are what the user types at the two prompts. */
  function AddSongSpec(rawTitle: string, tracks: seq<Midi.Track>, fingerprintOf: seq<int> -> string,
                       slugTaken: bool, overwriteAnswer: string, metas: seq<MetaRecord>,
                       addAnywayAnswer: string): (r: Result<SongRecord>)
    ensures r.Ok? ==> |r.value.notes| > 0 && |r.value.rel| == |r.value.notes| && Slug.IsSlug(r.value.slug)
    ensures r.Ok? ==> r.value.title != [] && r.value.fingerprint == fingerprintOf(r.value.notes)
  {
    var title := Slug.Strip(rawTitle, Slug.Whitespace);
    if title == [] then Err(NoTitle)
    else if tracks == [] then Err(NoTracks)
    else
      var slug := Slug.Slugify(title);
      var notes := Midi.NoteOns(tracks[Midi.LongestTrack(tracks)]);
      if notes == [] then Err(NoNotes)
      else
        var rel := Contour.NormalizeKey(notes);
        var fp := fingerprintOf(notes);
        if slugTaken && !Confirms(overwriteAnswer) then Err(OverwriteDeclined)
        else if DupSlugs(FingerprintMap(metas), fp, slug) != {} && !Confirms(addAnywayAnswer) then Err(DuplicateDeclined)
        else Ok(SongRecord(title, slug, notes, rel, fp))
  }

  /** The main block, step by step. */
  method AddSong(rawTitle: string, tracks: seq<Midi.Track>, fingerprintOf: seq<int> -> string,
                 slugTaken: bool, overwriteAnswer: string, metas: seq<MetaRecord>,
                 addAnywayAnswer: string) returns (r: Result<SongRecord>)
    ensures r == AddSongSpec(rawTitle, tracks, fingerprintOf, slugTaken, overwriteAnswer, metas, addAnywayAnswer)
  {
    var title := Slug.Strip(rawTitle, Slug.Whitespace);
    if title == [] {
      return Err(NoTitle);
    }
    var slug := Slug.Slugify(title);
    var notes :- Midi.MelodyNotes(tracks);
    if |notes| == 0 {
      return Err(NoNotes);
    }
    var rel := Contour.NormalizeKey(notes);
    var fp := fingerprintOf(notes);
    if slugTaken && !Confirms(overwriteAnswer) {
      return Err(OverwriteDeclined);
    }
    var existing := LoadFingerprints(metas);
    var dups := DupSlugs(existing, fp, slug);
    if dups != {} && !Confirms(addAnywayAnswer) {
      return Err(DuplicateDeclined);
    }
    r := Ok(SongRecord(title, slug, notes, rel, fp));
  }

  /** A melody without notes is refused before anything is normalised or saved. */
  lemma AddSongRejectsEmptyMelody(rawTitle: string, tracks: seq<Midi.Track>, fingerprintOf: seq<int> -> string,
                                  slugTaken: bool, overwriteAnswer: string, metas: seq<MetaRecord>,
                                  addAnywayAnswer: string)
    requires Slug.Strip(rawTitle, Slug.Whitespace) != [] && tracks != []
    requires Midi.NoteOns(tracks[Midi.LongestTrack(tracks)]) == []
    ensures AddSongSpec(rawTitle, tracks, fingerprintOf, slugTaken, overwriteAnswer, metas, addAnywayAnswer) == Err(NoNotes)
  {
  }

  /** What a saved record satisfies: its slug is a slug, its notes are the
      sounding notes of the longest track and not empty, its contour has the
      same length and median 0, and it was saved over another slug with the
      same fingerprint only after the user agreed. */
  lemma AddSongRecord(rawTitle: string, tracks: seq<Midi.Track>, fingerprintOf: seq<int> -> string,
                      slugTaken: bool, overwriteAnswer: string, metas: seq<MetaRecord>,
                      addAnywayAnswer: string)
    requires AddSongSpec(rawTitle, tracks, fingerprintOf, slugTaken, overwriteAnswer, metas, addAnywayAnswer).Ok?
    ensures var rec := AddSongSpec(rawTitle, tracks, fingerprintOf, slugTaken, overwriteAnswer, metas, addAnywayAnswer).value;
            && Slug.IsSlug(rec.slug)
            && tracks != [] && rec.notes == Midi.NoteOns(tracks[Midi.LongestTrack(tracks)]) && |rec.notes| > 0
            && |rec.rel| == |rec.notes| && Contour.Median(rec.rel) == 0.0
            && rec.fingerprint == fingerprintOf(rec.notes)
            && (slugTaken ==> Confirms(overwriteAnswer))
            && (forall i, s :: LastProvider(metas, i, s) && s != rec.slug && metas[i].fingerprint.value == rec.fingerprint
                  ==> Confirms(addAnywayAnswer))
  {
    var rec := AddSongSpec(rawTitle, tracks, fingerprintOf, slugTaken, overwriteAnswer, metas, addAnywayAnswer).value;
    forall i, s | LastProvider(metas, i, s) && s != rec.slug && metas[i].fingerprint.value == rec.fingerprint
      ensures Confirms(addAnywayAnswer)
    {
      FingerprintMapLast(metas, i, s);
      assert s in DupSlugs(FingerprintMap(metas), rec.fingerprint, rec.slug);
    }
  }

  /** Conversely, a melody with notes under a fresh or confirmed slug, and
      either no stored duplicate under another slug or a confirmed one, is saved. */
  lemma AddSongAccepts(rawTitle: string, tracks: seq<Midi.Track>, fingerprintOf: seq<int> -> string,
                       slugTaken: bool, overwriteAnswer: string, metas: seq<MetaRecord>,
                       addAnywayAnswer: string)
    requires Slug.Strip(rawTitle, Slug.Whitespace) != [] && tracks != []
    requires Midi.NoteOns(tracks[Midi.LongestTrack(tracks)]) != []
    requires slugTaken ==> Confirms(overwriteAnswer)
    requires Confirms(addAnywayAnswer)
             || DupSlugs(FingerprintMap(metas), fingerprintOf(Midi.NoteOns(tracks[Midi.LongestTrack(tracks)])),
                         Slug.Slugify(Slug.Strip(rawTitle, Slug.Whitespace))) == {}
    ensures AddSongSpec(rawTitle, tracks, fingerprintOf, slugTaken, overwriteAnswer, metas, addAnywayAnswer).Ok?
  {
    var title := Slug.Strip(rawTitle, Slug.Whitespace);
    var slug := Slug.Slugify(title);
    var notes := Midi.NoteOns(tracks[Midi.LongestTrack(tracks)]);
    var fp := fingerprintOf(notes);
    assert AddSongSpec(rawTitle, tracks, fingerprintOf, slugTaken, overwriteAnswer, metas, addAnywayAnswer)
        == Ok(SongRecord(title, slug, notes, Contour.NormalizeKey(notes), fp));
  }
}
