/**
 * The file-handling helpers that server.py and uploads.py define identically: Redis key
 * composition, the filename character filter, extension extraction and the whitelist check
 * of `save_file`, and the reply of the upload route.
 *
 * `secure_filename` (werkzeug) is a parameter: any string function. The temporary-file
 * candidate name, the stored file's size and its content type are parameters too, as is
 * the set of Redis keys that already exist.
 */
module Uploading {
  import opened Wrappers
  import opened Seqs
  import Text

  const AllowedExtensions: set<string> := {"txt", "csv", "bin", "bax"}
  const ImageExtensions: set<string> := {"jpg", "png", "svg", "gif"}

  // ---------------------------------------------------------------------------------------
  // rkey

  /** `prefix + ":" + sid`, then `":" + suffix` when the suffix is given and non-empty. */
  function RKey(prefix: string, sid: string, suffix: Option<string>): string
  {
    prefix + ":" + sid + (if suffix.Some? && |suffix.value| > 0 then ":" + suffix.value else "")
  }

  /** An empty suffix is falsy, so it composes the same key as no suffix. */
  lemma RKeyEmptySuffix(prefix: string, sid: string)
    ensures RKey(prefix, sid, Some("")) == RKey(prefix, sid, None) == prefix + ":" + sid
  {
  }

  /** Keys of colon-free parts split back into those parts. */
  lemma RKeySplit(prefix: string, sid: string, suffix: Option<string>)
    requires ':' !in prefix && ':' !in sid
    requires suffix.Some? ==> ':' !in suffix.value
    ensures suffix.Some? && |suffix.value| > 0 ==> Text.Split(RKey(prefix, sid, suffix), ':') == [prefix, sid, suffix.value]
    ensures suffix.None? || |suffix.value| == 0 ==> Text.Split(RKey(prefix, sid, suffix), ':') == [prefix, sid]
  {
    if suffix.Some? && |suffix.value| > 0 {
      var parts := [prefix, sid, suffix.value];
      assert Text.Join(parts[1..], ':') == sid + ":" + suffix.value;
      assert Text.Join(parts, ':') == RKey(prefix, sid, suffix);
      Text.SplitJoin(parts, ':');
    } else {
      var parts := [prefix, sid];
      assert Text.Join(parts, ':') == RKey(prefix, sid, suffix);
      Text.SplitJoin(parts, ':');
    }
  }

  // ---------------------------------------------------------------------------------------
  // escape_filename

  /** The characters `[a-zA-Z0-9\-_\.]` the filter keeps. */
  predicate IsNameChar(c: char)
  {
    'a' <= c <= 'z' || 'A' <= c <= 'Z' || '0' <= c <= '9' || c == '-' || c == '_' || c == '.'
  }

  predicate SafeName(s: string)
  {
    forall i :: 0 <= i < |s| ==> IsNameChar(s[i])
  }

  /** `re.sub('[^a-zA-Z0-9\-_\.]', '', secure_filename(filename))`. */
  function EscapeFilename(secure: string -> string, filename: string): string
  {
    Filter(secure(filename), IsNameChar)
  }

  /**
   * The escaped name holds only name characters, deletes characters of the
   * `secure_filename` result without reordering them, keeps every name character with its
   * multiplicity, and escaping it again changes nothing.
   */
  lemma EscapeFilenameSpec(secure: string -> string, filename: string)
    ensures SafeName(EscapeFilename(secure, filename))
    ensures IsSubsequence(EscapeFilename(secure, filename), secure(filename))
    ensures forall c :: multiset(EscapeFilename(secure, filename))[c] ==
                        if IsNameChar(c) then multiset(secure(filename))[c] else 0
    ensures Filter(EscapeFilename(secure, filename), IsNameChar) == EscapeFilename(secure, filename)
  {
    var r := EscapeFilename(secure, filename);
    FilterIsSubsequence(secure(filename), IsNameChar);
    FilterIdempotent(secure(filename), IsNameChar);
    forall c
      ensures multiset(r)[c] == if IsNameChar(c) then multiset(secure(filename))[c] else 0
    {
      FilterCount(secure(filename), IsNameChar, c);
    }
    EscapeFilenameSafe(secure, filename);
  }

  /** Every character of the escaped name is a name character. */
  lemma EscapeFilenameSafe(secure: string -> string, filename: string)
    ensures SafeName(EscapeFilename(secure, filename))
  {
    var r := EscapeFilename(secure, filename);
    forall i | 0 <= i < |r|
      ensures IsNameChar(r[i])
    {
      assert r[i] in r;
    }
  }

  /** A name the sanitiser leaves alone and that holds only name characters passes unchanged. */
  lemma EscapeFilenameKeepsSafe(secure: string -> string, filename: string)
    requires secure(filename) == filename && SafeName(filename)
    ensures EscapeFilename(secure, filename) == filename
  {
    FilterAllPass(filename, IsNameChar);
  }

  // ---------------------------------------------------------------------------------------
  // save_file

  /** `name.rsplit('.', 1)[1].lower() if '.' in name else ''`. */
  function FileExtension(name: string): (ext: string)
    ensures '.' !in ext
    ensures '.' !in name ==> ext == ""
    ensures '.' in name ==> exists k :: 0 <= k < |name| && name[k] == '.' && '.' !in name[k + 1..] &&
                                       ext == Text.Lower(name[k + 1..])
  {
    if '.' in name then
      var tail := Text.AfterLast(name, '.');
      Text.LowerKeeps(tail, '.');
      assert name[|name| - |tail|..] == tail;
      Text.Lower(tail)
    else ""
  }

  /** The extension of `stem + "." + tail` is the lower-cased `tail` when `tail` has no dot. */
  lemma FileExtensionOfJoin(stem: string, tail: string)
    requires '.' !in tail
    ensures FileExtension(stem + "." + tail) == Text.Lower(tail)
  {
    var name := stem + "." + tail;
    assert name[|stem|] == '.';
    Text.AfterLastOfJoin(stem, tail, '.');
  }

  /** `next(tempfile._get_candidate_names()) + '.' + file_extension`. */
  function TemporaryName(candidate: string, ext: string): (t: string)
    ensures |t| == |candidate| + 1 + |ext| && t[..|candidate|] == candidate
  {
    candidate + "." + ext
  }

  /**
   * The temporary name ends with "." and the extension, and the extension read back from it
   * is the original's.
   */
  lemma TemporaryNameKeepsExtension(candidate: string, name: string)
    ensures var t := TemporaryName(candidate, FileExtension(name));
      t[|t| - |FileExtension(name)| - 1..] == "." + FileExtension(name) &&
      FileExtension(t) == FileExtension(name)
  {
    var ext := FileExtension(name);
    var t := TemporaryName(candidate, ext);
    assert t == candidate + ("." + ext);
    assert t[|t| - |ext| - 1..] == "." + ext;
    FileExtensionOfJoin(candidate, ext);
    FileExtensionIsLower(name);
  }

  /** An extension is already lower case. */
  lemma FileExtensionIsLower(name: string)
    ensures Text.Lower(FileExtension(name)) == FileExtension(name)
  {
    if '.' in name {
      Text.LowerIdempotent(Text.AfterLast(name, '.'));
    }
  }

  /** The dictionary `save_file` returns. */
  datatype FileInfo = FileInfo(
    originalName: string,
    temporaryName: string,
    fileExtension: string,
    fileSize: nat,
    contentType: string)

  /**
   * save_file: the escaped name, its extension and a temporary name; the file is stored and
   * described only when the upload has a filename (FileStorage truthiness) and its
   * extension is on the list.
   */
  function SaveFile(secure: string -> string, filename: string, extensions: set<string>,
                    candidate: string, size: nat, contentType: string): (r: Option<FileInfo>)
    ensures r.Some? <==> |filename| > 0 && FileExtension(EscapeFilename(secure, filename)) in extensions
    ensures r.Some? ==> r.value.fileExtension in extensions && SafeName(r.value.originalName) &&
                        r.value.originalName == EscapeFilename(secure, filename) &&
                        r.value.fileExtension == FileExtension(r.value.originalName) &&
                        r.value.temporaryName == candidate + "." + r.value.fileExtension &&
                        FileExtension(r.value.temporaryName) == r.value.fileExtension &&
                        r.value.fileSize == size && r.value.contentType == contentType
  {
    var original := EscapeFilename(secure, filename);
    var ext := FileExtension(original);
    EscapeFilenameSafe(secure, filename);
    TemporaryNameKeepsExtension(candidate, original);
    if |filename| > 0 && ext in extensions then
      Some(FileInfo(original, TemporaryName(candidate, ext), ext, size, contentType))
    else None
  }

  /** Neither list holds the empty extension, so a name without a dot is always rejected. */
  lemma NoExtensionRejected(secure: string -> string, filename: string, candidate: string, size: nat, contentType: string)
    requires '.' !in EscapeFilename(secure, filename)
    ensures SaveFile(secure, filename, AllowedExtensions, candidate, size, contentType).None?
    ensures SaveFile(secure, filename, ImageExtensions, candidate, size, contentType).None?
  {
    var ext := FileExtension(EscapeFilename(secure, filename));
    assert |ext| == 0;
    assert forall e :: e in AllowedExtensions + ImageExtensions ==> |e| == 3;
  }

  /**
   * When the empty extension is not listed and the sanitiser maps "" to "", only the
   * extension decides: a listed extension implies a non-empty filename.
   */
  lemma SaveFileByExtension(secure: string -> string, filename: string, extensions: set<string>,
                            candidate: string, size: nat, contentType: string)
    requires "" !in extensions && secure("") == ""
    ensures SaveFile(secure, filename, extensions, candidate, size, contentType).Some? <==>
            FileExtension(EscapeFilename(secure, filename)) in extensions
  {
    var escaped := EscapeFilename(secure, filename);
    if |filename| == 0 {
      assert filename == "";
      assert escaped == [];
      assert FileExtension(escaped) == "";
    }
  }

  // ---------------------------------------------------------------------------------------
  // upload

  /** A route's reply, or the exception that escapes it. */
  datatype Reply = Reply(body: string, status: int) | Crash(exception: string)

  /** The key `add_file` stores a file under: `files:<sid>:<original name>`. */
  function FileKey(sid: string, info: FileInfo): string
  {
    RKey("files", sid, Some(info.originalName))
  }

  /**
   * upload as written: on a rejected file `file_info` is None, and formatting the rejection
   * message subscripts it (TypeError).
   */
  function UploadAsWritten(saved: Option<FileInfo>, sid: string, stored: set<string>): Reply
  {
    match saved
    case Some(info) =>
      if FileKey(sid, info) in stored then Reply("File '" + info.originalName + "' already uploaded!", 400)
      else Reply("File Received: " + info.originalName, 200)
    case None => Crash("TypeError")
  }

  /** Every upload `save_file` rejects, for an empty filename or an unlisted extension, crashes the route. */
  lemma UploadRejectedCrashes(secure: string -> string, filename: string, candidate: string,
                              size: nat, contentType: string, sid: string, stored: set<string>)
    requires SaveFile(secure, filename, AllowedExtensions, candidate, size, contentType).None?
    ensures UploadAsWritten(SaveFile(secure, filename, AllowedExtensions, candidate, size, contentType), sid, stored)
            == Crash("TypeError")
  {
  }

  /**
   * upload with the rejection message built from the extension that was rejected: 200 for a
   * new accepted file, 400 for a duplicate, 400 naming the extension otherwise.
   */
  function Upload(secure: string -> string, filename: string, candidate: string,
                  size: nat, contentType: string, sid: string, stored: set<string>): (r: Reply)
    ensures r.Reply?
    ensures r.status == 200 <==>
      var saved := SaveFile(secure, filename, AllowedExtensions, candidate, size, contentType);
      saved.Some? && FileKey(sid, saved.value) !in stored
    ensures r.status != 200 ==> r.status == 400
    ensures FileExtension(EscapeFilename(secure, filename)) !in AllowedExtensions ==>
      r == Reply("File type '" + FileExtension(EscapeFilename(secure, filename)) + "' rejected", 400)
  {
    var saved := SaveFile(secure, filename, AllowedExtensions, candidate, size, contentType);
    match saved
    case Some(_) => UploadAsWritten(saved, sid, stored)
    case None => Reply("File type '" + FileExtension(EscapeFilename(secure, filename)) + "' rejected", 400)
  }

  /** The corrected route agrees with the code as written wherever the latter does not crash. */
  lemma UploadAgrees(secure: string -> string, filename: string, candidate: string,
                     size: nat, contentType: string, sid: string, stored: set<string>)
    ensures var saved := SaveFile(secure, filename, AllowedExtensions, candidate, size, contentType);
      UploadAsWritten(saved, sid, stored).Reply? ==>
      Upload(secure, filename, candidate, size, contentType, sid, stored) == UploadAsWritten(saved, sid, stored)
  {
  }
}
