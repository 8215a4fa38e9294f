/**
 * The document store `fish4jobs.json` as a file slot: `Some(snapshot)` when the
 * file exists and parses as an array of records, `None` when it is missing or
 * cannot be read or parsed.
 */
module Storage {
  import opened Wrappers
  import opened Records

  /** What `readFileSync` + `JSON.parse` inside the `try` of the scrapers yields: the empty snapshot on any failure. */
  function Loaded(content: Option<seq<Record>>): (snapshot: seq<Record>) {
    if content.Some? then content.value else []
  }

  class JsonFile {
    var content: Option<seq<Record>>

    constructor (initial: Option<seq<Record>>)
      ensures content == initial
    {
      content := initial;
    }

    /** Fail-soft load: a missing or unparsable file reads as the empty snapshot, never as an error. */
    method Load() returns (snapshot: seq<Record>)
      ensures content.None? ==> snapshot == []
      ensures content.Some? ==> snapshot == content.value
    {
      match content
      case None => snapshot := [];
      case Some(s) => snapshot := s;
    }

    /** `writeFileSync`: the whole snapshot replaces the file's content. */
    method Save(snapshot: seq<Record>)
      modifies this
      ensures content == Some(snapshot)
    {
      content := Some(snapshot);
    }
  }
}
