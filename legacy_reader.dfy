/**
 * The older copy of the transcript reader at the repository root.  Its
 * extractors are the same first-match searches as `ChatReader`'s, so they
 * are used from there; its record has no child age and no child name.
 */
module LegacyReader {
  import opened Wrappers
  import opened Dicts
  import opened Timestamps
  import CR = ChatReader

  datatype Metadata = Metadata(
    filePath: string,
    fileType: string,
    encoding: Option<string>,
    pid: Option<string>,
    languages: seq<string>,
    participants: Dict<string, string>,
    options: seq<string>,
    media: Option<CR.Media>,
    date: Option<string>,
    types: seq<string>,
    utterances: seq<CR.Utterance>)

  datatype ChaData = ChaData(content: string, metadata: Metadata)

  /** The record the older `read_cha` builds, or `None` for a missing file and the extractors' errors. */
  function ReadChaOf(filePath: string, file: Option<string>): Option<ChaData> {
    match file
    case None => None
    case Some(c) =>
      match (CR.Participants(c), CR.Utterances(c))
      case (Some(ps), Some(us)) =>
        Some(ChaData(c, Metadata(filePath, "cha", CR.Encoding(c), CR.Pid(c), CR.Languages(c), ps,
          CR.Options(c), CR.MediaField(c), CR.Date(c), CR.Types(c), us)))
      case _ => None
  }

  /** The current record without its child fields. */
  function Drop(m: CR.Metadata): Metadata {
    Metadata(m.filePath, m.fileType, m.encoding, m.pid, m.languages, m.participants,
      m.options, m.media, m.date, m.types, m.utterances)
  }

  /**
   * The two readers agree: they succeed on the same files, and the older
   * record is the current one with `child_age` and `child_name` left out.
   */
  lemma AgreesWithCurrent(filePath: string, file: Option<string>)
    ensures ReadChaOf(filePath, file).Some? <==> CR.ReadChaOf(filePath, file).Some?
    ensures ReadChaOf(filePath, file).Some? ==>
      ReadChaOf(filePath, file).value ==
        ChaData(file.value, Drop(CR.ReadChaOf(filePath, file).value.metadata))
  {
    if file.Some? {
      CR.ChildNameFailsWithParticipants(file.value);
    }
  }

  /** The older reader object: `data` holds the last transcript read successfully. */
  class Reader {
    var data: Option<ChaData>

    constructor()
      ensures data == None
    {
      data := None;
    }

    /**
     * `read_cha`: the record for the file (`None` when it is missing or an
     * extractor raises), stored in `data` on success.
     */
    method ReadCha(filePath: string, file: Option<string>) returns (r: Option<ChaData>)
      modifies this
      ensures r == ReadChaOf(filePath, file)
      ensures data == if r.Some? then r else old(data)
    {
      if file.None? {
        return None;
      }
      var c := file.value;
      var ps := CR.ExtractParticipants(c);
      var us := CR.ExtractUtterances(c);
      if ps.None? || us.None? {
        return None;
      }
      r := Some(ChaData(c, Metadata(filePath, "cha", CR.Encoding(c), CR.Pid(c), CR.Languages(c), ps.value,
        CR.Options(c), CR.MediaField(c), CR.Date(c), CR.Types(c), us.value)));
      data := r;
    }
  }
}
