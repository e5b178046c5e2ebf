/**
 * The pending-upload registry of LocalQabelService: for every directory
 * path, the list of files still being uploaded there.
 *
 * The document id parser is a parameter: its `getPath` and `getBaseName`
 * may throw FileNotFoundException. An uploading file is modelled by its
 * name, the only field the service sets or compares.
 */
module PendingUploads {
  import opened Common

  /** A `BoxUploadingFile`. */
  datatype UploadingFile = UploadingFile(name: string)

  /** The registry: path to the files pending there, oldest first. */
  type Uploads = map<string, seq<UploadingFile>>

  /** `DocumentIdParser.getPath` and `getBaseName`. */
  datatype DocumentIdParser = DocumentIdParser(
    path: string -> Result<string>,
    baseName: string -> Result<string>)

  /** The list of `path`, an absent path counting as an empty list. */
  function ListAt(u: Uploads, path: string): seq<UploadingFile>
  {
    if path in u then u[path] else []
  }

  /** `u2` agrees with `u` on every path except `path`. */
  predicate OthersUnchanged(u: Uploads, u2: Uploads, path: string)
  {
    && u2.Keys - {path} == u.Keys - {path}
    && forall p :: p in u && p != path ==> p in u2 && u2[p] == u[p]
  }

  /**
   * addPendingUpload: appends a file named after the document's base name
   * to the list of the document's path, creating the list when missing.
   */
  function AddPendingUpload(u: Uploads, parser: DocumentIdParser, documentId: string): (r: Result<Uploads>)
    ensures r.Err? <==> parser.path(documentId).Err? || parser.baseName(documentId).Err?
    ensures r.Ok? ==>
              var path := parser.path(documentId).value;
              && path in r.value
              && r.value[path] == ListAt(u, path) + [UploadingFile(parser.baseName(documentId).value)]
              && OthersUnchanged(u, r.value, path)
  {
    match parser.path(documentId)
    case Err(f) => Err(f)
    case Ok(path) =>
      var uploads := ListAt(u, path);
      match parser.baseName(documentId)
      case Err(f) => Err(f)
      case Ok(name) => Ok(u[path := uploads + [UploadingFile(name)]])
  }

  /** Position `i` holds the first file of `files` named `name`. */
  predicate FirstNamed(files: seq<UploadingFile>, name: string, i: int)
  {
    && 0 <= i < |files|
    && files[i].name == name
    && forall j :: 0 <= j < i ==> files[j].name != name
  }

  /** The search loop of `removePendingUpload`. */
  function IndexOfName(files: seq<UploadingFile>, name: string): (r: Option<nat>)
    ensures r.Some? ==> FirstNamed(files, name, r.value)
    ensures r.None? <==> forall j :: 0 <= j < |files| ==> files[j].name != name
  {
    if files == [] then None
    else if files[0].name == name then Some(0)
    else match IndexOfName(files[1..], name)
      case None => None
      case Some(i) => Some(i + 1)
  }

  /**
   * removePendingUpload: drops the first file named after the document's
   * base name from the list of its path and answers true; answers false,
   * changing nothing, when the path has no list or no such file. The base
   * name is only computed when the list has an element to compare.
   */
  function RemovePendingUpload(u: Uploads, parser: DocumentIdParser, documentId: string): (r: Result<(Uploads, bool)>)
    ensures r.Err? <==>
              || parser.path(documentId).Err?
              || (ListAt(u, parser.path(documentId).value) != [] && parser.baseName(documentId).Err?)
    ensures r.Ok? && !r.value.1 ==> r.value.0 == u
    ensures r.Ok? ==>
              (r.value.1 <==>
                 var files := ListAt(u, parser.path(documentId).value);
                 exists j :: 0 <= j < |files| && files[j].name == parser.baseName(documentId).value)
    ensures r.Ok? && r.value.1 ==>
              var path := parser.path(documentId).value;
              var gone := UploadingFile(parser.baseName(documentId).value);
              && path in u && path in r.value.0
              && |r.value.0[path]| == |u[path]| - 1
              && multiset(r.value.0[path]) + multiset{gone} == multiset(u[path])
              && OthersUnchanged(u, r.value.0, path)
    ensures r.Ok? && r.value.1 ==>
              var path := parser.path(documentId).value;
              var files := u[path];
              exists i :: FirstNamed(files, parser.baseName(documentId).value, i) && r.value.0[path] == files[..i] + files[i + 1..]
  {
    match parser.path(documentId)
    case Err(f) => Err(f)
    case Ok(path) =>
      if path !in u || u[path] == [] then Ok((u, false))
      else
        var files := u[path];
        match parser.baseName(documentId)
        case Err(f) => Err(f)
        case Ok(name) =>
          match IndexOfName(files, name)
          case None => Ok((u, false))
          case Some(i) =>
            var left := files[..i] + files[i + 1..];
            assert files == files[..i] + [files[i]] + files[i + 1..];
            Ok((u[path := left], true))
  }

  /**
   * After adding a document, removing it succeeds and leaves the list of
   * its path holding the same files as before the add (the removed entry
   * may be an older one of the same name), and every other path as it was.
   */
  lemma AddThenRemove(u: Uploads, parser: DocumentIdParser, documentId: string)
    requires AddPendingUpload(u, parser, documentId).Ok?
    ensures var u1 := AddPendingUpload(u, parser, documentId).value;
            var r := RemovePendingUpload(u1, parser, documentId);
            var path := parser.path(documentId).value;
            && r.Ok? && r.value.1
            && multiset(r.value.0[path]) == multiset(ListAt(u, path))
            && OthersUnchanged(u, r.value.0, path)
  {
    var u1 := AddPendingUpload(u, parser, documentId).value;
    var path := parser.path(documentId).value;
    var added := UploadingFile(parser.baseName(documentId).value);
    var files := u1[path];
    assert files[|files| - 1] == added;
    var r := RemovePendingUpload(u1, parser, documentId);
    assert r.Ok? && r.value.1;
    assert files == ListAt(u, path) + [added];
    assert multiset(files) == multiset(ListAt(u, path)) + multiset{added};
    assert multiset(r.value.0[path]) + multiset{added} == multiset(files);
    var after, before := multiset(r.value.0[path]), multiset(ListAt(u, path));
    assert after + multiset{added} == before + multiset{added};
    forall y
      ensures after[y] == before[y]
    {
      assert (after + multiset{added})[y] == after[y] + multiset{added}[y];
      assert (before + multiset{added})[y] == before[y] + multiset{added}[y];
    }
    assert after == before;
  }
}
