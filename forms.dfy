/** The `save` methods of the format, chapter and category forms, and the
    contributor widget's queryset and value conversion (forms.py).

    A model instance is a class whose fields `save` assigns one by one; its
    `persisted` field is the row last written to the database (`None` while
    none has been). The form has already built the instance from its cleaned
    data (`super().save(commit=False)`), so it arrives here filled in. */
module Forms {
  import opened Wrappers
  import opened Seqs
  import opened Text
  import opened Models
  import opened Files

  // ----- instances -----

  class FormatInstance {
    var id: nat
    var book: nat
    var title: string
    var filename: string
    var sequence: nat
    var persisted: Option<Format>

    constructor (row: Format)
      ensures Row() == row && persisted == None
    {
      id, book, title, filename, sequence := row.id, row.book, row.title, row.filename, row.sequence;
      persisted := None;
    }

    function Row(): Format
      reads this
    {
      Format(id, book, title, filename, sequence)
    }

    /** `Model.save()`: writes the current fields to the database. */
    method Save()
      modifies this
      ensures Row() == old(Row()) && persisted == Some(Row())
    {
      persisted := Some(Row());
    }
  }

  class ChapterInstance {
    var id: nat
    var book: nat
    var title: string
    var number: Option<nat>
    var sequence: nat
    var filename: string
    var persisted: Option<Chapter>

    constructor (row: Chapter)
      ensures Row() == row && persisted == None
    {
      id, book, title, number, sequence, filename := row.id, row.book, row.title, row.number, row.sequence, row.filename;
      persisted := None;
    }

    function Row(): Chapter
      reads this
    {
      Chapter(id, book, title, number, sequence, filename)
    }

    method Save()
      modifies this
      ensures Row() == old(Row()) && persisted == Some(Row())
    {
      persisted := Some(Row());
    }
  }

  class CategoryInstance {
    var id: nat
    var name: string
    var slug: string
    var persisted: Option<Category>

    constructor (row: Category)
      ensures Row() == row && persisted == None
    {
      id, name, slug := row.id, row.name, row.slug;
      persisted := None;
    }

    function Row(): Category
      reads this
    {
      Category(id, name, slug)
    }

    method Save()
      modifies this
      ensures Row() == old(Row()) && persisted == Some(Row())
    {
      persisted := Some(Row());
    }
  }

  // ----- FormatForm.save -----

  /** The format row and folder after `FormatForm.save`: the file is always
      replaced, and the new stored name is the only field that changes. */
  function FormatSaved(row: Format, upload: Upload, files: map<string, Bytes>, uuid: string): (r: Result<(Format, map<string, Bytes>)>)
    ensures r.Failure? <==> row.filename != "" && row.filename !in files
    ensures r.Failure? ==> r.error == FileNotFound
    ensures r.Success? ==>
      && r.value.0 == row.(filename := StoredName(uuid, upload.name))
      && r.value.0.filename in r.value.1 && r.value.1[r.value.0.filename] == upload.content
      && (row.filename != "" && row.filename != r.value.0.filename ==> row.filename !in r.value.1)
    ensures r.Success? ==> Replaced(files, upload, row.filename, uuid) == Success((r.value.0.filename, r.value.1))
  {
    match Replaced(files, upload, row.filename, uuid)
    case Failure(e) => Failure(e)
    case Success(saved) => Success((row.(filename := saved.0), saved.1))
  }

  /** `FormatForm.save(commit)` with the uploaded `file` and `uuid4()`'s value. */
  method SaveFormatForm(instance: FormatInstance, file: Upload, commit: bool, storage: BookStorage, uuid: string)
    returns (r: Result<FormatInstance>)
    requires storage.Valid() && IsUuidText(uuid)
    modifies instance, storage
    ensures storage.Valid()
    ensures var spec := FormatSaved(old(instance.Row()), file, old(storage.files), uuid);
      && (spec.Failure? ==>
            && r == Failure(spec.error)
            && instance.Row() == old(instance.Row()) && instance.persisted == old(instance.persisted)
            && storage.files == old(storage.files))
      && (spec.Success? ==>
            && r == Success(instance)
            && instance.Row() == spec.value.0 && storage.files == spec.value.1
            && instance.persisted == (if commit then Some(spec.value.0) else old(instance.persisted)))
  {
    var filename := storage.SaveFileToDisk(file, instance.filename, uuid);
    if filename.Failure? {
      return Failure(filename.error);
    }
    instance.filename := filename.value;
    if commit {
      instance.Save();
    }
    r := Success(instance);
  }

  // ----- ChapterForm.save -----

  /** Django's truthiness of the cleaned `file` field: no file, or a file
      whose name is empty, counts as none. */
  predicate HasUpload(file: Option<Upload>) {
    file.Some? && file.value.name != ""
  }

  /** The chapter row and folder after `ChapterForm.save(book=book)`: the
      book is set only when one is passed, the file is replaced only when one
      was uploaded, and nothing else changes. */
  function ChapterSaved(row: Chapter, book: Option<nat>, file: Option<Upload>, files: map<string, Bytes>, uuid: string)
    : (r: Result<(Chapter, map<string, Bytes>)>)
    ensures r.Failure? <==> HasUpload(file) && row.filename != "" && row.filename !in files
    ensures r.Failure? ==> r.error == FileNotFound
    ensures r.Success? ==> r.value.0.book == (if book.Some? then book.value else row.book)
    ensures r.Success? ==> r.value.0.(book := row.book, filename := row.filename) == row
    ensures r.Success? && !HasUpload(file) ==> r.value.0.filename == row.filename && r.value.1 == files
    ensures r.Success? && HasUpload(file) ==>
      && r.value.0.filename == StoredName(uuid, file.value.name)
      && r.value.0.filename in r.value.1 && r.value.1[r.value.0.filename] == file.value.content
    ensures r.Success? && HasUpload(file) ==>
      Replaced(files, file.value, row.filename, uuid) == Success((r.value.0.filename, r.value.1))
  {
    var withBook := if book.Some? then row.(book := book.value) else row;
    if HasUpload(file) then
      match Replaced(files, file.value, row.filename, uuid)
      case Failure(e) => Failure(e)
      case Success(saved) => Success((withBook.(filename := saved.0), saved.1))
    else Success((withBook, files))
  }

  /** Saving a chapter without an upload never touches the folder. */
  lemma ChapterSavedWithoutUpload(row: Chapter, book: Option<nat>, files: map<string, Bytes>, uuid: string)
    ensures ChapterSaved(row, book, None, files, uuid) == Success((if book.Some? then row.(book := book.value) else row, files))
  {
  }

  /** `ChapterForm.save(commit, book)`. The `book` argument is a model
      instance when given, and those are always truthy. */
  method SaveChapterForm(instance: ChapterInstance, book: Option<nat>, file: Option<Upload>, commit: bool,
                         storage: BookStorage, uuid: string)
    returns (r: Result<ChapterInstance>)
    requires storage.Valid() && IsUuidText(uuid)
    modifies instance, storage
    ensures storage.Valid()
    ensures var spec := ChapterSaved(old(instance.Row()), book, file, old(storage.files), uuid);
      && (spec.Failure? ==>
            && r == Failure(spec.error)
            && instance.Row() == (if book.Some? then old(instance.Row()).(book := book.value) else old(instance.Row()))
            && instance.persisted == old(instance.persisted)
            && storage.files == old(storage.files))
      && (spec.Success? ==>
            && r == Success(instance)
            && instance.Row() == spec.value.0 && storage.files == spec.value.1
            && instance.persisted == (if commit then Some(spec.value.0) else old(instance.persisted)))
  {
    if book.Some? {
      instance.book := book.value;
    }
    if HasUpload(file) {
      var filename := storage.SaveFileToDisk(file.value, instance.filename, uuid);
      if filename.Failure? {
        return Failure(filename.error);
      }
      instance.filename := filename.value;
    }
    if commit {
      instance.Save();
    }
    r := Success(instance);
  }

  // ----- CategoryForm.save -----

  /** `CategoryForm.save(commit)`: the slug is recomputed from the name on
      every save. */
  method SaveCategoryForm(instance: CategoryInstance, commit: bool, slugify: string -> string)
    returns (r: CategoryInstance)
    modifies instance
    ensures r == instance
    ensures instance.Row() == old(instance.Row()).(slug := slugify(old(instance.name)))
    ensures instance.persisted == (if commit then Some(instance.Row()) else old(instance.persisted))
  {
    instance.slug := slugify(instance.name);
    if commit {
      instance.Save();
    }
    r := instance;
  }

  // ----- TableMultiSelect -----

  /** A row of the widget's `items`: the contributor under its 'object' key,
      if the key is there (model instances are always truthy). */
  datatype Item = Item(contributor: Option<Contributor>)

  /** The pks of the contributors present in `items`, in order. */
  function SelectedPks(items: seq<Item>): (pks: seq<nat>)
    ensures |pks| <= |items|
    ensures forall pk :: pk in pks <==> exists i :: 0 <= i < |items| && items[i].contributor.Some? && items[i].contributor.value.id == pk
  {
    if items == [] then []
    else
      var rest := SelectedPks(items[1..]);
      assert forall i :: 0 < i < |items| ==> items[i] == items[1..][i - 1];
      match items[0].contributor
      case Some(c) => [c.id] + rest
      case None => rest
  }

  /** `TableMultiSelect.get_queryset`: the contributors whose pk was selected,
      in table order. */
  function GetQueryset(items: seq<Item>, contributors: seq<Contributor>): (r: seq<Contributor>)
    ensures forall c :: c in r <==> c in contributors && c.id in SelectedPks(items)
    ensures |r| <= |contributors|
  {
    var pks := SelectedPks(items);
    Filter(contributors, (c: Contributor) => c.id in pks)
  }

  /** `[int(val) for val in values]`: the first value `int()` rejects makes
      the whole comprehension raise. */
  function ParseAll(values: seq<string>): (r: Result<seq<int>>)
    ensures r.Failure? <==> exists i :: 0 <= i < |values| && ParseInt(values[i]).Failure?
    ensures r.Failure? ==> r.error == ValueError
    ensures r.Success? ==> |r.value| == |values| && forall i :: 0 <= i < |values| ==> ParseInt(values[i]) == Success(r.value[i])
  {
    if values == [] then Success([])
    else
      assert forall i :: 0 < i < |values| ==> values[i] == values[1..][i - 1];
      match ParseInt(values[0])
      case Failure(e) => Failure(e)
      case Success(n) =>
        match ParseAll(values[1..])
        case Failure(e) => Failure(e)
        case Success(ns) => Success([n] + ns)
  }

  /** The `value` passed to the template by `TableMultiSelect.render`: `None`
      for a missing or empty value, otherwise every value as an int. */
  function ValueForTemplate(value: Option<seq<string>>): (r: Result<Option<seq<int>>>)
    ensures value.None? || value.value == [] ==> r == Success(None)
    ensures value.Some? && value.value != [] ==>
      (r.Failure? <==> ParseAll(value.value).Failure?) &&
      (r.Success? ==> r == Success(Some(ParseAll(value.value).value)))
  {
    if value.None? || value.value == [] then Success(None)
    else
      match ParseAll(value.value)
      case Failure(e) => Failure(e)
      case Success(ns) => Success(Some(ns))
  }

  /** The decimal text of each number. */
  function Decimals(ns: seq<int>): (r: seq<string>)
    ensures |r| == |ns|
    ensures forall i :: 0 <= i < |ns| ==> r[i] == Decimal(ns[i])
  {
    if ns == [] then [] else [Decimal(ns[0])] + Decimals(ns[1..])
  }

  lemma ParseAllCons(values: seq<string>)
    requires values != [] && ParseInt(values[0]).Success? && ParseAll(values[1..]).Success?
    ensures ParseAll(values) == Success([ParseInt(values[0]).value] + ParseAll(values[1..]).value)
  {
  }

  /** Rendering the pks the widget was given as text gives them back. */
  lemma {:induction false} ParseAllDecimals(ns: seq<int>)
    ensures ParseAll(Decimals(ns)) == Success(ns)
  {
    if ns != [] {
      var ds := Decimals(ns);
      assert ds[0] == Decimal(ns[0]) && ds[1..] == Decimals(ns[1..]);
      ParseDecimal(ns[0]);
      ParseAllDecimals(ns[1..]);
      ParseAllCons(ds);
      assert ns == [ns[0]] + ns[1..];
    }
  }

  lemma ValueForTemplateOfDecimals(ns: seq<int>)
    requires ns != []
    ensures ValueForTemplate(Some(Decimals(ns))) == Success(Some(ns))
  {
    ParseAllDecimals(ns);
  }
}
