/** The books folder on disk (`files/press/books` under the base directory)
    as a map from file name to content, with the three operations of
    files.py: deleting a book file, replacing a record's file with an
    upload, and serving a stored file as an attachment. */
module Files {
  import opened Wrappers
  import opened Text

  type Bytes = seq<bv8>

  /** An uploaded file: the name the browser sent and its bytes. */
  datatype Upload = Upload(name: string, content: Bytes)

  /** What `serve_book_file` hands back: the content type, the
      `Content-Length` and `Content-Disposition` headers and the streamed body. */
  datatype FileResponse = FileResponse(contentType: string, contentLength: nat, disposition: string, body: Bytes)

  /** The name a new upload is stored under: a fresh uuid followed by the
      extension of the name it was uploaded with. */
  function StoredName(uuid: string, originalName: string): (name: string)
    ensures uuid <= name
    ensures name[|uuid|..] == Extension(originalName)
  {
    uuid + Extension(originalName)
  }

  /** Splitting a stored name again gives back the uuid as the stem and the
      upload's extension: the names built by `save_file_to_disk` are the ones
      `serve_book_file` takes apart. */
  lemma StoredNameSplits(uuid: string, originalName: string)
    requires IsUuidText(uuid)
    ensures SplitExt(StoredName(uuid, originalName)) == (uuid, Extension(originalName))
  {
    var ext := Extension(originalName);
    var name := uuid + ext;
    assert forall j :: 0 <= j < |uuid| ==> name[j] == uuid[j];
    assert forall j :: |uuid| <= j < |name| ==> name[j] == ext[j - |uuid|];
    assert forall j :: 0 <= j < |name| ==> name[j] != '/';
    LastIndexOfAt(name, '/', -1);
    if ext == "" {
      assert forall j :: 0 <= j < |name| ==> name[j] != '.';
      LastIndexOfAt(name, '.', -1);
    } else {
      assert forall j :: |uuid| < j < |name| ==> name[j] == ext[1..][j - |uuid| - 1];
      LastIndexOfAt(name, '.', |uuid|);
      assert name[0] != '.';
      assert HasNonDot(name, 0, |uuid|);
      assert name[..|uuid|] == uuid && name[|uuid|..] == ext;
    }
  }

  /** The attachment name: the slugified stem of the stored name followed by
      its extension. */
  function DownloadName(stored: string, slugify: string -> string): string {
    var parts := SplitExt(stored);
    slugify(parts.0) + parts.1
  }

  /** The `Content-Disposition` header `serve_book_file` sets. */
  function Disposition(stored: string, slugify: string -> string): string {
    "attachment; filename=\"" + DownloadName(stored, slugify) + "\""
  }

  /** For a name stored by `save_file_to_disk` the attachment is named after
      the slugified uuid, not after the format's title, and keeps the upload's
      extension. */
  lemma DownloadNameOfStoredFile(uuid: string, originalName: string, slugify: string -> string)
    requires IsUuidText(uuid)
    ensures DownloadName(StoredName(uuid, originalName), slugify) == slugify(uuid) + Extension(originalName)
  {
    StoredNameSplits(uuid, originalName);
  }

  /** The folder after `save_file_to_disk(upload, record)` for a record whose
      filename is `current`, with the uuid it draws: `FileNotFound` when the
      record names a file that is not there (the delete comes first and has no
      guard), otherwise the stored name and the new folder. */
  function Replaced(files: map<string, Bytes>, upload: Upload, current: string, uuid: string): (r: Result<(string, map<string, Bytes>)>)
    ensures r.Failure? <==> current != "" && current !in files
    ensures r.Failure? ==> r.error == FileNotFound
    ensures r.Success? ==> r.value.0 == StoredName(uuid, upload.name)
    ensures r.Success? ==> r.value.0 in r.value.1 && r.value.1[r.value.0] == upload.content
    ensures r.Success? && current != "" && current != r.value.0 ==> current !in r.value.1
    ensures r.Success? ==> forall n :: n in files && n != current && n != r.value.0 ==>
      n in r.value.1 && r.value.1[n] == files[n]
    ensures r.Success? ==> forall n :: n in r.value.1 ==> n in files || n == r.value.0
  {
    if current != "" && current !in files then Failure(FileNotFound)
    else
      var kept := if current != "" then files - {current} else files;
      var name := StoredName(uuid, upload.name);
      Success((name, kept[name := upload.content]))
  }

  /** With no filename on the record nothing is deleted: the folder only
      gains the new file. */
  lemma ReplacedWithoutFilenameDeletesNothing(files: map<string, Bytes>, upload: Upload, uuid: string)
    ensures Replaced(files, upload, "", uuid).Success?
    ensures Replaced(files, upload, "", uuid).value.1.Keys == files.Keys + {StoredName(uuid, upload.name)}
  {
  }

  /** The empty name never denotes a stored file, and replacing keeps it so. */
  lemma ReplacedKeepsNamesNonEmpty(files: map<string, Bytes>, upload: Upload, current: string, uuid: string)
    requires "" !in files
    requires IsUuidText(uuid)
    ensures Replaced(files, upload, current, uuid).Success? ==> "" !in Replaced(files, upload, current, uuid).value.1
  {
  }

  /** What `serve_book_file` returns for a stored name: `Http404` when there
      is no such file, otherwise the whole content with its length and the
      attachment header. */
  function Served(files: map<string, Bytes>, filename: string, guessMime: string -> string, slugify: string -> string): (r: Result<FileResponse>)
    ensures r.Failure? <==> filename !in files
    ensures r.Failure? ==> r.error == Http404
    ensures r.Success? ==>
      && r.value.body == files[filename]
      && r.value.contentLength == |files[filename]|
      && r.value.contentType == guessMime(filename)
      && r.value.disposition == Disposition(filename, slugify)
  {
    if filename in files then
      var content := files[filename];
      Success(FileResponse(guessMime(filename), |content|, Disposition(filename, slugify), content))
    else Failure(Http404)
  }

  /** The attachment header of a stored name names the slugified uuid and
      the upload's extension. */
  lemma DispositionOfStoredFile(uuid: string, originalName: string, slugify: string -> string)
    requires IsUuidText(uuid)
    ensures Disposition(StoredName(uuid, originalName), slugify)
         == "attachment; filename=\"" + slugify(uuid) + Extension(originalName) + "\""
  {
    DownloadNameOfStoredFile(uuid, originalName, slugify);
  }

  /** A file stored by `save_file_to_disk` is served back with its content
      under the slugified uuid and the upload's extension. */
  lemma ServedAfterReplace(files: map<string, Bytes>, upload: Upload, current: string, uuid: string,
                           guessMime: string -> string, slugify: string -> string)
    requires IsUuidText(uuid)
    requires Replaced(files, upload, current, uuid).Success?
    ensures var saved := Replaced(files, upload, current, uuid).value;
      && Served(saved.1, saved.0, guessMime, slugify).Success?
      && Served(saved.1, saved.0, guessMime, slugify).value.body == upload.content
      && Served(saved.1, saved.0, guessMime, slugify).value.disposition
           == "attachment; filename=\"" + slugify(uuid) + Extension(upload.name) + "\""
  {
    var saved := Replaced(files, upload, current, uuid).value;
    assert saved.0 == StoredName(uuid, upload.name);
    assert saved.0 in saved.1 && saved.1[saved.0] == upload.content;
    DispositionOfStoredFile(uuid, upload.name, slugify);
  }

  /** The books folder. The empty name stands for the folder itself, which is
      never a file. */
  class BookStorage {
    var files: map<string, Bytes>

    ghost predicate Valid()
      reads this
    {
      "" !in files
    }

    constructor ()
      ensures Valid() && files == map[]
    {
      files := map[];
    }

    /** `delete_book_file`: unlinks the file; fails when it is not there. */
    method DeleteBookFile(filename: string) returns (r: Result<()>)
      requires Valid()
      modifies this
      ensures Valid()
      ensures r.Success? <==> filename in old(files)
      ensures r.Success? ==> files == old(files) - {filename}
      ensures r.Failure? ==> r.error == FileNotFound && files == old(files)
    {
      if filename in files {
        files := files - {filename};
        r := Success(());
      } else {
        r := Failure(FileNotFound);
      }
    }

    /** `save_file_to_disk(upload, record)` for a record whose filename is
        `current`, with `uuid` the value `uuid4()` gives. */
    method SaveFileToDisk(upload: Upload, current: string, uuid: string) returns (r: Result<string>)
      requires Valid() && IsUuidText(uuid)
      modifies this
      ensures Valid()
      ensures var spec := Replaced(old(files), upload, current, uuid);
        && (spec.Failure? ==> r == Failure(spec.error) && files == old(files))
        && (spec.Success? ==> r == Success(spec.value.0) && files == spec.value.1)
    {
      if current != "" {
        var deleted := DeleteBookFile(current);
        if deleted.Failure? {
          return Failure(deleted.error);
        }
      }
      var filename := uuid + Extension(upload.name);
      files := files[filename := upload.content];
      r := Success(filename);
    }
  }
}
