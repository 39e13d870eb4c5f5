/**
 * Note extraction from a parsed MIDI file. A file is its list of tracks, a
 * track its list of messages; only note_on messages with a positive velocity
 * sound a note.
 */
module Midi {
  import opened Results
  import Contour

  datatype Message =
    | NoteOn(note: int, velocity: int)
    | OtherMessage(kind: string)   // note_off, control changes, meta messages, ...

  type Track = seq<Message>

  /** msg.type == "note_on" and msg.velocity > 0 */
  predicate Sounds(m: Message) {
    m.NoteOn? && m.velocity > 0
  }

  /** The notes of the sounding messages of a track, in message order. */
  function NoteOns(track: Track): (notes: seq<int>)
    ensures |notes| <= |track|
  {
    if track == [] then []
    else (if Sounds(track[0]) then [track[0].note] else []) + NoteOns(track[1..])
  }

  /** A single message contributes its note exactly when it sounds. */
  lemma NoteOnsSingle(m: Message)
    ensures NoteOns([m]) == if Sounds(m) then [m.note] else []
  {
    assert [m][1..] == [];
  }

  /** Extraction distributes over concatenation of message lists: together
      with NoteOnsSingle this says the result keeps, in order, exactly the
      notes of the sounding messages. */
  lemma {:induction false} NoteOnsAppend(t1: Track, t2: Track)
    ensures NoteOns(t1 + t2) == NoteOns(t1) + NoteOns(t2)
  {
    if t1 == [] {
      assert t1 + t2 == t2;
    } else {
      var h := if Sounds(t1[0]) then [t1[0].note] else [];
      assert (t1 + t2)[0] == t1[0] && (t1 + t2)[1..] == t1[1..] + t2;
      NoteOnsAppend(t1[1..], t2);
      calc {
        NoteOns(t1 + t2);
        h + NoteOns(t1[1..] + t2);
        h + (NoteOns(t1[1..]) + NoteOns(t2));
        (h + NoteOns(t1[1..])) + NoteOns(t2);
        NoteOns(t1) + NoteOns(t2);
      }
    }
  }

  /** max(tracks, key=len): the index of the longest track, the first one on ties. */
  function LongestTrack(tracks: seq<Track>): (k: nat)
    requires |tracks| > 0
    ensures k < |tracks|
    ensures forall j :: 0 <= j < |tracks| ==> |tracks[j]| <= |tracks[k]|
    ensures forall j :: 0 <= j < k ==> |tracks[j]| < |tracks[k]|
  {
    if |tracks| == 1 then 0
    else
      var k := LongestTrack(tracks[..|tracks| - 1]);
      assert forall j :: 0 <= j < |tracks| - 1 ==> tracks[..|tracks| - 1][j] == tracks[j];
      if |tracks[|tracks| - 1]| > |tracks[k]| then |tracks| - 1 else k
  }

  /** The loop of midi_to_melody_midinotes over one track. */
  method CollectNotes(track: Track) returns (notes: seq<int>)
    ensures notes == NoteOns(track)
  {
    notes := [];
    var i := 0;
    while i < |track|
      invariant 0 <= i <= |track|
      invariant notes == NoteOns(track[..i])
    {
      var msg := track[i];
      assert track[..i + 1] == track[..i] + [msg];
      NoteOnsAppend(track[..i], [msg]);
      NoteOnsSingle(msg);
      if msg.NoteOn? && msg.velocity > 0 {
        notes := notes + [msg.note];
      }
      i := i + 1;
    }
    assert track[..i] == track;
  }

  /** midi_to_melody_midinotes: the notes of the longest track. A file without
      tracks makes max() fail. */
  method MelodyNotes(tracks: seq<Track>) returns (r: Result<seq<int>>)
    ensures |tracks| == 0 ==> r == Err(NoTracks)
    ensures |tracks| > 0 ==> r == Ok(NoteOns(tracks[LongestTrack(tracks)]))
  {
    if |tracks| == 0 {
      return Err(NoTracks);
    }
    var track := tracks[LongestTrack(tracks)];
    var notes := CollectNotes(track);
    r := Ok(notes);
  }

  /** All messages of all tracks, track after track. */
  function Concat(tracks: seq<Track>): (all: Track)
  {
    if tracks == [] then [] else tracks[0] + Concat(tracks[1..])
  }

  /** The flattened comprehension of midi_to_contour: for each track, for each
      message, keep the sounding notes. */
  function FlattenedNotes(tracks: seq<Track>): (notes: seq<int>)
    ensures notes == NoteOns(Concat(tracks))
  {
    if tracks == [] then []
    else
      NoteOnsAppend(tracks[0], Concat(tracks[1..]));
      NoteOns(tracks[0]) + FlattenedNotes(tracks[1..])
  }

  /** midi_to_contour without the Hz conversion: the flattened notes and their
      key-normalised contour. */
  function MidiToContour(tracks: seq<Track>): (r: (seq<int>, seq<real>))
    ensures r.0 == NoteOns(Concat(tracks))
    ensures |r.1| == |r.0|
    ensures forall i, j :: 0 <= i < |r.0| && 0 <= j < |r.0| ==> r.1[i] - r.1[j] == (r.0[i] - r.0[j]) as real
    ensures |r.0| > 0 ==> Contour.Median(r.1) == 0.0
  {
    var notes := FlattenedNotes(tracks);
    (notes, Contour.NormalizeKey(notes))
  }
}
