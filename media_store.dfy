/**
 * The `Music` table and the handlers that use it: `upload` adds a row
 * after its checks, `delete` removes one behind a fixed password, and
 * `download` and `stream` read one. The table is a map from id to row
 * with a counter for the next id, standing for the database's
 * autoincrement key.
 */
module MediaStore {
  import opened Wrappers
  import opened PyText
  import opened PyPath
  import opened RangeServing

  /** A row of the table; the upload timestamp is not modelled. */
  datatype Music = Music(filename: string, title: string, data: seq<byte>)

  /** The `file` part of an upload request: its client-side name, if any, and its bytes. */
  datatype FilePart = FilePart(filename: Option<string>, data: seq<byte>)

  /** Why an upload was turned away; each has its own flash message. */
  datatype Rejection =
    | NoFilePart       // no `file` part in the request
    | NoFileSelected   // the part's name is the empty string
    | InvalidFilename  // the part has no name at all
    | UnsupportedType  // the extension is neither `.mp3` nor `.mp4`

  datatype UploadOutcome = Rejected(why: Rejection) | Uploaded(id: nat)

  datatype DeleteOutcome = WrongPassword | Missing | Deleted

  /** A read handler's result: a 404 for an unknown id, or what it sends. */
  datatype Lookup<T> = NotFound | Found(value: T)

  /** What `download` sends: the bytes as an attachment under the stored name. */
  datatype Attachment = Attachment(data: seq<byte>, mimetype: string, downloadName: string)

  const DeletePassword := "choco-banana-"

  /**
   * The `splitext` extension, lowercased, is `.mp3` or `.mp4`: a dot, an
   * `m` and a `p` in either case, and a `3` or a `4`.
   */
  predicate AllowedExtension(name: string)
    ensures
      var ext := SplitExt(name).ext;
      AllowedExtension(name) <==>
        && |ext| == 4 && ext[0] == '.'
        && (ext[1] == 'm' || ext[1] == 'M')
        && (ext[2] == 'p' || ext[2] == 'P')
        && (ext[3] == '3' || ext[3] == '4')
  {
    var ext := Lower(SplitExt(name).ext);
    ext == ".mp3" || ext == ".mp4"
  }

  /** An allowed name ends in `.mp3` or `.mp4`, ignoring case. */
  lemma AllowedNameSuffix(name: string)
    requires AllowedExtension(name)
    ensures EndsWith(Lower(name), ".mp3") || EndsWith(Lower(name), ".mp4")
  {
    var parts := SplitExt(name);
    assert name == parts.root + parts.ext;
    LowerSuffix(name, |parts.root|);
    assert name[|parts.root|..] == parts.ext;
  }

  /** A dot file such as `.mp3` has no extension, so it is not allowed. */
  lemma DotFileNotAllowed(base: string)
    requires '.' !in base
    ensures !AllowedExtension("." + base)
  {
    var name := "." + base;
    assert forall i :: 1 <= i < |name| ==> name[i] == base[i - 1];
  }

  /**
   * The checks `upload` makes before touching the table, in its order;
   * `None` means the file is accepted. The bytes are not looked at, so
   * empty content is accepted.
   */
  function UploadCheck(file: Option<FilePart>): (r: Option<Rejection>)
    ensures r == None <==>
      file.Some? && file.value.filename.Some? && file.value.filename.value != "" &&
      AllowedExtension(file.value.filename.value)
    ensures file.None? ==> r == Some(NoFilePart)
    ensures file.Some? && file.value.filename == Some("") ==> r == Some(NoFileSelected)
    ensures file.Some? && file.value.filename.None? ==> r == Some(InvalidFilename)
    ensures file.Some? && file.value.filename.Some? && file.value.filename.value != "" ==>
      (r == Some(UnsupportedType) <==> !AllowedExtension(file.value.filename.value))
  {
    if file.None? then Some(NoFilePart)
    else if file.value.filename == Some("") then Some(NoFileSelected)
    else if file.value.filename.None? then Some(InvalidFilename)
    else if !AllowedExtension(file.value.filename.value) then Some(UnsupportedType)
    else None
  }

  /** A file that passes the checks carries a name ending in `.mp3` or `.mp4`, ignoring case. */
  lemma AcceptedNameSuffix(file: Option<FilePart>)
    requires UploadCheck(file) == None
    ensures file.Some? && file.value.filename.Some?
    ensures EndsWith(Lower(file.value.filename.value), ".mp3") || EndsWith(Lower(file.value.filename.value), ".mp4")
  {
    AllowedNameSuffix(file.value.filename.value);
  }

  /** `download`: the stored bytes unchanged, or 404. */
  function Download(records: map<nat, Music>, id: nat): (r: Lookup<Attachment>)
    ensures r.Found? <==> id in records
    ensures r.Found? ==>
      && r.value.data == records[id].data
      && r.value.downloadName == records[id].filename
      && r.value.mimetype == Mimetype(records[id].filename)
  {
    if id in records then
      var music := records[id];
      Found(Attachment(music.data, Mimetype(music.filename), music.filename))
    else NotFound
  }

  /** `stream`: 404 for an unknown id, otherwise the range decision on the stored bytes. */
  function Stream(records: map<nat, Music>, id: nat, rangeHeader: Option<string>): (r: Lookup<Response>)
    ensures r.Found? <==> id in records
    ensures r.Found? && r.value.status == 200 ==> r.value.body == records[id].data
    ensures r.Found? && r.value.status != 416 ==> r.value.mimetype == Some(Download(records, id).value.mimetype)
  {
    if id in records then Found(Serve(records[id].data, records[id].filename, rangeHeader))
    else NotFound
  }

  /** The shared record table. */
  class Store {
    var records: map<nat, Music>
    var nextId: nat

    /** Every id in use is below the counter, so the counter is always fresh. */
    ghost predicate Valid()
      reads this
    {
      nextId > 0 && forall id :: id in records ==> 0 < id < nextId
    }

    constructor ()
      ensures Valid()
      ensures records == map[] && nextId == 1
    {
      records := map[];
      nextId := 1;
    }

    /**
     * `upload`: a rejected file leaves the table as it was; an accepted one
     * adds exactly one row under a fresh id, with the sanitised name, the
     * original name as title and the bytes as sent, and downloading that id
     * gives the bytes back. `secureFilename` is werkzeug's sanitiser.
     */
    method Upload(file: Option<FilePart>, secureFilename: string -> string) returns (outcome: UploadOutcome)
      requires Valid()
      modifies this
      ensures Valid()
      ensures outcome.Rejected? <==> UploadCheck(file).Some?
      ensures outcome.Rejected? ==>
        && outcome.why == UploadCheck(file).value
        && records == old(records)
        && nextId == old(nextId)
      ensures outcome.Uploaded? ==>
        var name := file.value.filename.value;
        && outcome.id == old(nextId)
        && outcome.id !in old(records)
        && records == old(records)[outcome.id := Music(secureFilename(name), name, file.value.data)]
        && nextId == old(nextId) + 1
        && Download(records, outcome.id) ==
             Found(Attachment(file.value.data, Mimetype(secureFilename(name)), secureFilename(name)))
    {
      var check := UploadCheck(file);
      if check.Some? {
        outcome := Rejected(check.value);
        return;
      }
      var name := file.value.filename.value;
      var id := nextId;
      var music := Music(secureFilename(name), name, file.value.data);
      DownloadAfterInsert(records, id, music);
      records := records[id := music];
      nextId := nextId + 1;
      outcome := Uploaded(id);
    }

    /**
     * `delete`: the password is checked before the id is looked up, so a
     * wrong or missing password never reaches the 404; with the right one,
     * only the row with that id goes.
     */
    method Delete(id: nat, password: Option<string>) returns (outcome: DeleteOutcome)
      requires Valid()
      modifies this
      ensures Valid()
      ensures password != Some(DeletePassword) ==> outcome == WrongPassword
      ensures password == Some(DeletePassword) && id !in old(records) ==> outcome == Missing
      ensures password == Some(DeletePassword) && id in old(records) ==> outcome == Deleted
      ensures records == if outcome == Deleted then old(records) - {id} else old(records)
      ensures nextId == old(nextId)
    {
      if password != Some(DeletePassword) {
        return WrongPassword;
      }
      if id !in records {
        return Missing;
      }
      records := records - {id};
      outcome := Deleted;
    }
  }

  /** Stream and download choose the media type by the same rule. */
  lemma SameMimetype(records: map<nat, Music>, id: nat, rangeHeader: Option<string>)
    requires id in records
    ensures Stream(records, id, rangeHeader).value.status != 416 ==>
      Stream(records, id, rangeHeader).value.mimetype == Some(Download(records, id).value.mimetype)
  {
  }

  /** After a row is added, streaming it without a range sends the stored bytes. */
  lemma StreamAfterInsert(records: map<nat, Music>, id: nat, music: Music)
    ensures Stream(records[id := music], id, None).value.status == 200
    ensures Stream(records[id := music], id, None).value.body == music.data
  {
  }

  /** After a row is added, downloading it sends its bytes under its stored name. */
  lemma DownloadAfterInsert(records: map<nat, Music>, id: nat, music: Music)
    ensures Download(records[id := music], id)
      == Found(Attachment(music.data, Mimetype(music.filename), music.filename))
  {
  }

  /** Removing a row makes both read handlers answer 404 for it and leaves the others alone. */
  lemma ReadAfterRemove(records: map<nat, Music>, id: nat, other: nat, rangeHeader: Option<string>)
    requires other != id
    ensures Download(records - {id}, id) == NotFound
    ensures Download(records - {id}, other) == Download(records, other)
    ensures Stream(records - {id}, id, rangeHeader) == NotFound
    ensures Stream(records - {id}, other, rangeHeader) == Stream(records, other, rangeHeader)
  {
  }
}
