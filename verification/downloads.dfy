/**
 * The registry of generated files behind the export and download endpoints: a map from
 * file id to where the file was written and the name it is offered under. File ids, the
 * temporary directory and which paths exist on disk are parameters.
 */
module Downloads {
  import opened Text

  datatype Format = Pdf | Docx

  datatype FileInfo = FileInfo(path: string, filename: string)

  type Registry = map<string, FileInfo>

  /** The answer to an export request. */
  datatype ConversionResponse = ConversionResponse(success: bool, message: string, downloadUrl: string)

  /** What a download streams back: the stored path, offered under the stored file name. */
  datatype FileResponse = FileResponse(path: string, filename: string, mediaType: string)

  datatype HttpError = HttpError(status: int, detail: string)

  datatype Download = Found(response: FileResponse) | NotFound(error: HttpError)

  function Extension(format: Format): string
  {
    match format
    case Pdf => ".pdf"
    case Docx => ".docx"
  }

  /** The name a file is offered under: the title with every space replaced by '_', then the extension. */
  function FileName(title: string, format: Format): (name: string)
    ensures |name| == |title| + |Extension(format)|
    ensures forall i :: 0 <= i < |title| ==> name[i] != ' '
    ensures forall i :: 0 <= i < |title| && title[i] != ' ' ==> name[i] == title[i]
    ensures forall i :: 0 <= i < |title| && title[i] == ' ' ==> name[i] == '_'
    ensures EndsWith(name, Extension(format))
  {
    var base := ReplaceChar(title, ' ', '_');
    EndsWithAppend(base, Extension(format));
    base + Extension(format)
  }

  /** `os.path.join(directory, name)` on a POSIX system. */
  function JoinPath(directory: string, name: string): (path: string)
    ensures EndsWith(path, name)
  {
    EndsWithAppend(directory, name);
    EndsWithAppend(directory + "/", name);
    assert ("" + name) == name;
    if StartsWith(name, "/") then name
    else if directory == "" || directory[|directory| - 1] == '/' then directory + name
    else directory + "/" + name
  }

  /** Where a file is written: the temporary directory joined with the id and the extension. */
  function TempPath(tempDir: string, id: string, format: Format): string
  {
    JoinPath(tempDir, id + Extension(format))
  }

  /**
   * Recording a generated file under `id`: the entry for `id` holds its path and name, and
   * every other entry is as it was.
   */
  function Register(registry: Registry, id: string, tempDir: string, title: string, format: Format): (r: Registry)
    ensures r.Keys == registry.Keys + {id}
    ensures r[id] == FileInfo(TempPath(tempDir, id, format), FileName(title, format))
    ensures forall k :: k in registry && k != id ==> r[k] == registry[k]
  {
    registry[id := FileInfo(TempPath(tempDir, id, format), FileName(title, format))]
  }

  function DownloadUrl(id: string): string
  {
    "/api/download/" + id
  }

  /** The message of a successful export. */
  function Generated(format: Format): string
  {
    match format
    case Pdf => "PDF generated successfully"
    case Docx => "DOCX generated successfully"
  }

  /** The tail of an export: the file is recorded and the caller is told where to fetch it. */
  function Export(registry: Registry, id: string, tempDir: string, title: string, format: Format): (Registry, ConversionResponse)
  {
    (Register(registry, id, tempDir, title, format), ConversionResponse(true, Generated(format), DownloadUrl(id)))
  }

  /**
   * `download_file`: an id that was never recorded is a 404, and so is a recorded file that
   * is no longer on disk; otherwise the stored file is streamed under its stored name.
   */
  function DownloadFile(registry: Registry, id: string, onDisk: set<string>): (d: Download)
    ensures d.NotFound? <==> id !in registry || registry[id].path !in onDisk
    ensures d.NotFound? ==> d.error.status == 404
    ensures d.Found? ==> d.response.path == registry[id].path && d.response.filename == registry[id].filename
  {
    if id !in registry then NotFound(HttpError(404, "File not found"))
    else
      var info := registry[id];
      if info.path !in onDisk then NotFound(HttpError(404, "File not found on disk"))
      else Found(FileResponse(info.path, info.filename, "application/octet-stream"))
  }

  // ---------------------------------------------------------------------------------------

  /**
   * A file just exported can be downloaded by the id in its download URL, under the name
   * derived from the title, as long as it is on disk; otherwise the download is a 404.
   */
  lemma ExportThenDownload(registry: Registry, id: string, tempDir: string, title: string, format: Format, onDisk: set<string>)
    ensures var (r, response) := Export(registry, id, tempDir, title, format);
      && response.success
      && response.downloadUrl == DownloadUrl(id)
      && (TempPath(tempDir, id, format) in onDisk ==>
            DownloadFile(r, id, onDisk) == Found(FileResponse(TempPath(tempDir, id, format), FileName(title, format), "application/octet-stream")))
      && (TempPath(tempDir, id, format) !in onDisk ==> DownloadFile(r, id, onDisk).NotFound?)
  {
  }

  /** Recording one file never changes what a download of another id returns. */
  lemma RegisterIsolated(registry: Registry, id: string, other: string, tempDir: string, title: string, format: Format, onDisk: set<string>)
    requires other != id
    ensures DownloadFile(Register(registry, id, tempDir, title, format), other, onDisk) == DownloadFile(registry, other, onDisk)
  {
  }
}
