/** The image upload endpoint (`POST /api/upload`): validates the form's `file`
    entry, then stores it in blob storage when a token is configured, and
    otherwise answers with a base64 `data:` URL. */
module Upload {
  import opened Common
  import opened Base64

  /** A file part of a multipart form. */
  datatype File = File(name: string, mimeType: string, content: seq<byte>)

  /** What `formData.get("file")` yields: nothing, a text field, or a file. */
  datatype Entry = Absent | Text(text: string) | Upload(file: File)

  /** The request body: it either parses as form data or makes `formData()` throw. */
  datatype Request = Malformed | Form(entry: Entry)

  /** The outcome of the blob store's `put`, used only when a token is configured. */
  datatype BlobPut = Stored(url: string) | PutThrew

  /** The JSON body and HTTP status of the reply. */
  datatype Response = Response(status: nat, url: Option<string>, error: Option<string>, warning: Option<string>)

  const AllowedTypes: seq<string> := ["image/jpeg", "image/png", "image/webp", "image/gif"]

  /** 5 MiB. */
  const MaxSize: nat := 5 * 1024 * 1024

  const NoFileError := "No file provided"
  const BadTypeError := "Invalid file type. Only images are allowed."
  const TooLargeError := "File size exceeds 5MB limit"
  const FailedError := "Failed to upload image"
  const DataUrlWarning := "Using base64 data URL. For production, configure BLOB_READ_WRITE_TOKEN for better performance."

  /** `!file`: no entry, or an empty text field. A file part is an object, so it
      is never falsy, whatever its size. */
  predicate NoFile(entry: Entry): (r: bool)
    ensures r <==> entry.Absent? || (entry.Text? && entry.text == "")
    ensures entry.Upload? ==> !r
  {
    entry.Absent? || entry == Text("")
  }

  /** `allowedTypes.includes(file.type)`; a text field has no `type`. Only the
      four image types pass, each an `image/` type. */
  predicate AllowedType(entry: Entry): (r: bool)
    ensures r ==> entry.Upload? && |entry.file.mimeType| > 6 && entry.file.mimeType[..6] == "image/"
    ensures r <==> entry.Upload? && entry.file.mimeType in {"image/jpeg", "image/png", "image/webp", "image/gif"}
  {
    entry.Upload? && entry.file.mimeType in AllowedTypes
  }

  /** The prefix of the fallback URL, in the form of section 3 of RFC 2397. */
  function DataUrlPrefix(mimeType: string): string {
    "data:" + mimeType + ";base64,"
  }

  function Fail(status: nat, message: string): Response {
    Response(status, None, Some(message), None)
  }

  /** The handler. The checks run in order: presence, type, size; any throw
      (a malformed body, a failing `put`) becomes a 500 reply. */
  function Post(request: Request, token: Option<string>, put: BlobPut): (r: Response)
    ensures r.status == 400 || r.status == 500 <==> r.error.Some?
    ensures r == Fail(500, FailedError) <==>
      request.Malformed? ||
      (!NoFile(request.entry) && AllowedType(request.entry)
       && |request.entry.file.content| <= MaxSize && Truthy(token) && put.PutThrew?)
    ensures r == Fail(400, NoFileError) <==> request.Form? && NoFile(request.entry)
    ensures r == Fail(400, BadTypeError) <==>
      request.Form? && !NoFile(request.entry) && !AllowedType(request.entry)
    ensures r == Fail(400, TooLargeError) <==>
      request.Form? && AllowedType(request.entry) && |request.entry.file.content| > MaxSize
    ensures r.status == 200 <==>
      request.Form? && AllowedType(request.entry) && |request.entry.file.content| <= MaxSize
      && (Truthy(token) ==> put.Stored?)
    ensures r.status == 200 && Truthy(token) ==> r == Response(200, Some(put.url), None, None)
    ensures r.status == 200 && !Truthy(token) ==>
      var file := request.entry.file;
      var prefix := DataUrlPrefix(file.mimeType);
      && r.url.Some? && r.error.None? && r.warning == Some(DataUrlWarning)
      && |prefix| <= |r.url.value| && r.url.value[..|prefix|] == prefix
      && WellFormed(r.url.value[|prefix|..])
      && Decode(r.url.value[|prefix|..]) == file.content
  {
    match request
    case Malformed => Fail(500, FailedError)
    case Form(entry) =>
      if NoFile(entry) then Fail(400, NoFileError)
      else if !AllowedType(entry) then Fail(400, BadTypeError)
      else if |entry.file.content| > MaxSize then Fail(400, TooLargeError)
      else if Truthy(token) then
        match put
        case PutThrew => Fail(500, FailedError)
        case Stored(url) => Response(200, Some(url), None, None)
      else
        var payload := Encode(entry.file.content);
        var url := DataUrlPrefix(entry.file.mimeType) + payload;
        DecodeEncode(entry.file.content);
        assert url[|DataUrlPrefix(entry.file.mimeType)|..] == payload;
        Response(200, Some(url), None, Some(DataUrlWarning))
  }
}
