/** Error-or-value results shared by the matching pipeline and the ingestion helpers. */
module Results {

  /** The ways the modelled code stops with an exception instead of producing a value. */
  datatype Error =
    | EmptySamplePoints   // np.interp: "array of sample points is empty"
    | NegativeLength      // np.linspace: the number of samples must be non-negative
    | EmptyDtwInput       // librosa DTW called on an empty sequence
    | EmptyCatalog        // load_db: "No songs in the database."
    | NoTracks            // max() over an empty list of MIDI tracks
    | NoTitle             // "No title provided."
    | NoNotes             // "No notes found"
    | OverwriteDeclined   // the user did not confirm overwriting an existing slug
    | DuplicateDeclined   // the user did not confirm adding duplicate content

  datatype Option<+T> = None | Some(value: T)

  datatype Result<+T> = Ok(value: T) | Err(error: Error) {
    predicate IsFailure() { Err? }

    function PropagateFailure<U>(): Result<U>
      requires Err?
    {
      Err(error)
    }

    function Extract(): T
      requires Ok?
    {
      value
    }
  }
}
