/**
 * flask-uploads.py: the upload prototype that keeps the uploaded files' records in the
 * session. The session's 'files' entry is a field of `UploadSession` (None while the key is
 * absent); `upload` appends to it in place and `clear_files` resets it.
 *
 * `secure_filename`, the temporary-file candidate name and the request's content length
 * are parameters; writing the file to disk is not modelled.
 */
module FlaskUploads {
  import opened Wrappers
  import Text
  import opened Uploading

  const AllowedExtensions: set<string> := {"txt", "pdf", "png", "jpg", "jpeg", "gif", "dat", "bax", "csv"}

  /**
   * allowed_file: the name has a '.' and the text after the last one is listed, compared
   * as it is (no lower-casing).
   */
  function AllowedFile(filename: string): (b: bool)
    ensures b ==> '.' in filename && |filename| >= 4
  {
    if '.' in filename then
      var tail := Text.AfterLast(filename, '.');
      assert forall e :: e in AllowedExtensions ==> |e| >= 3;
      tail in AllowedExtensions
    else false
  }

  /** A name is allowed iff the text after its last '.' is one of the listed extensions. */
  lemma AllowedFileSpec(filename: string)
    ensures AllowedFile(filename) <==>
      exists k :: 0 <= k < |filename| && filename[k] == '.' && '.' !in filename[k + 1..] &&
                  filename[k + 1..] in AllowedExtensions
  {
    if '.' in filename {
      var j := Text.LastIndexOf(filename, '.');
      assert Text.AfterLast(filename, '.') == filename[j + 1..];
      forall k | 0 <= k < |filename| && filename[k] == '.' && '.' !in filename[k + 1..]
        ensures k == j
      {
        Text.LastIndexUnique(filename, '.', k);
      }
    }
  }

  /** The comparison is case-sensitive: 'A.TXT' is refused. */
  lemma AllowedFileRejectsUpperCase()
    ensures !AllowedFile("A.TXT")
  {
    var name, tail := "A.TXT", "TXT";
    assert name == "A" + ['.'] + tail;
    Text.AfterLastOfJoin("A", tail, '.');
    assert tail !in AllowedExtensions by {
      assert forall e :: e in AllowedExtensions ==> |e| > 0 && e[0] != 'T';
    }
  }

  /** server.py and uploads.py lower-case the same name's extension to 'txt', which they accept. */
  lemma LowerCasedExtensionAccepted()
    ensures FileExtension("A.TXT") == "txt" && "txt" in Uploading.AllowedExtensions
  {
    assert "A.TXT" == "A" + "." + "TXT";
    FileExtensionOfJoin("A", "TXT");
    LowerTXT();
  }

  /** `"TXT".lower()` is `"txt"`. */
  lemma LowerTXT()
    ensures Text.Lower("TXT") == "txt"
  {
    var lower := Text.Lower("TXT");
    assert |lower| == 3 && lower[0] == 't' && lower[1] == 'x' && lower[2] == 't';
  }

  /** Every listed extension is lower case, so an allowed name's lower-cased extension is listed too. */
  lemma AllowedFileExtensionListed(filename: string)
    requires AllowedFile(filename)
    ensures FileExtension(filename) in AllowedExtensions
  {
    var tail := Text.AfterLast(filename, '.');
    assert tail in AllowedExtensions;
    assert Text.Lower(tail) == tail by {
      assert forall e :: e in AllowedExtensions ==> Text.Lower(e) == e;
    }
  }

  /** One entry of session['files']. */
  datatype FileRecord = FileRecord(originalName: string, temporaryName: string, size: int)

  /** The records held, treating an absent 'files' key as no records. */
  function Held(files: Option<seq<FileRecord>>): seq<FileRecord>
  {
    if files.Some? then files.value else []
  }

  /** The (name, size) pairs the listing route serialises. */
  function Listing(records: seq<FileRecord>): (r: seq<(string, int)>)
    ensures |r| == |records|
    ensures forall i :: 0 <= i < |records| ==> r[i] == (records[i].originalName, records[i].size)
  {
    seq(|records|, i requires 0 <= i < |records| => (records[i].originalName, records[i].size))
  }

  /** The listing of one more record is the old listing followed by that record's pair. */
  lemma ListingAppend(records: seq<FileRecord>, rec: FileRecord)
    ensures Listing(records + [rec]) == Listing(records) + [(rec.originalName, rec.size)]
  {
  }

  /** upload's reply as written: the rejection message reads `original_name`, which is unbound there. */
  function UploadReplyAsWritten(filename: string, originalName: string): Reply
  {
    if |filename| > 0 && AllowedFile(filename) then Reply("File Received" + originalName, 201)
    else Crash("UnboundLocalError")
  }

  /** upload's reply with `original_name` computed before the test, so the rejection names the escaped file. */
  function UploadReply(filename: string, originalName: string): (r: Reply)
    ensures r.Reply?
    ensures r.status == 201 <==> AllowedFile(filename)
    ensures r.status != 201 ==> r == Reply("Bad request. File is not of allowed type: " + originalName, 400)
  {
    if |filename| > 0 && AllowedFile(filename) then Reply("File Received" + originalName, 201)
    else Reply("Bad request. File is not of allowed type: " + originalName, 400)
  }

  /** Every rejected upload crashes the route as written; accepted ones get the same reply from both. */
  lemma UploadReplyAgrees(filename: string, originalName: string)
    ensures !AllowedFile(filename) ==> UploadReplyAsWritten(filename, originalName) == Crash("UnboundLocalError")
    ensures AllowedFile(filename) ==> UploadReplyAsWritten(filename, originalName) == UploadReply(filename, originalName)
  {
  }

  /** The session of one client. */
  class UploadSession {
    /** session['files']; None while the key is absent. */
    var files: Option<seq<FileRecord>>

    /** Every stored original name passed the character filter. */
    predicate Valid()
      reads this
    {
      forall i :: 0 <= i < |Held(files)| ==> SafeName(Held(files)[i].originalName)
    }

    /** A new session has no 'files' key. */
    constructor ()
      ensures files == None && Valid()
    {
      files := None;
    }

    /** clear_files: session['files'] = []. */
    method ClearFiles() returns (reply: Reply)
      modifies this
      ensures files == Some([]) && Valid()
      ensures reply == Reply("Files cleared", 200)
    {
      files := Some([]);
      reply := Reply("Files cleared", 200);
    }

    /**
     * upload: creates the list when absent, then appends exactly one record for an allowed
     * file, leaving the earlier records as they were; a refused file changes nothing more.
     * The reply is the corrected `UploadReply`: as written, a refused file raises
     * UnboundLocalError instead (`UploadReplyAsWritten`, `UploadReplyAgrees`).
     */
    method Upload(secure: string -> string, filename: string, candidate: string, contentLength: int)
      returns (reply: Reply)
      requires Valid()
      modifies this
      ensures Valid() && files.Some?
      ensures AllowedFile(filename) ==>
        files.value == Held(old(files)) + [FileRecord(EscapeFilename(secure, filename), candidate, contentLength)]
      ensures !AllowedFile(filename) ==> files.value == Held(old(files))
      ensures reply == UploadReply(filename, EscapeFilename(secure, filename))
    {
      if files.None? {
        files := Some([]);
      }
      var originalName := EscapeFilename(secure, filename);
      if |filename| > 0 && AllowedFile(filename) {
        EscapeFilenameSafe(secure, filename);
        ghost var before := files.value;
        assert before == Held(files);
        assert forall i :: 0 <= i < |before| ==> SafeName(before[i].originalName);
        files := Some(files.value + [FileRecord(originalName, candidate, contentLength)]);
        assert forall i :: 0 <= i < |before| ==> Held(files)[i] == before[i];
        assert Held(files)[|before|].originalName == originalName;
      }
      reply := UploadReply(filename, originalName);
    }

    /** list_uploaded_files as written: it reads a 'name' key the records do not have. */
    function ListFilesAsWritten(): (r: Result<seq<(string, int)>>)
      reads this
      ensures r.Success? <==> files == Some([])
    {
      match files
      case None => Failure("KeyError: 'files'")
      case Some(records) => if |records| == 0 then Success([]) else Failure("KeyError: 'name'")
    }

    /** list_uploaded_files reading the stored 'original_name' and 'size'. */
    function ListFiles(): (r: Result<seq<(string, int)>>)
      reads this
      ensures r.Success? <==> files.Some?
      ensures r.Success? ==> r.value == Listing(files.value)
    {
      match files
      case None => Failure("KeyError: 'files'")
      case Some(records) => Success(Listing(records))
    }
  }
}
