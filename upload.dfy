/** The upload helpers: the authorization header for upload requests, the check a file
    must pass before it is sent, and the upload component's configuration. */
module Upload {
  import opened Common

  const Authorization: string := "Authorization"

  /** `getUploadHeaders`, given the stored token (None when absent). */
  function UploadHeaders(token: Option<string>): (h: map<string, string>)
    ensures Authorization in h <==> Truthy(token)
    ensures h.Keys <= {Authorization}
    ensures Authorization in h ==> h[Authorization] == "Bearer " + token.value
  {
    if Truthy(token) then map[Authorization := "Bearer " + token.value] else map[]
  }

  /** A file as the browser describes it: its MIME type and its size in bytes. */
  datatype File = File(mimeType: string, size: nat)

  /** `beforeUpload` returns true or a message. */
  datatype Check = Accept | Reject(message: string)

  const NotImage: string := "只能上传图片文件！"
  const TooLarge: string := "图片大小不能超过 5MB！"

  /** Five megabytes in bytes. */
  const MaxBytes: nat := 5 * 1024 * 1024

  predicate IsImage(mimeType: string)
  {
    |mimeType| >= 6 && mimeType[..6] == "image/"
  }

  /** `file.size / 1024 / 1024 < 5`, in the source's floating-point division. The two
      divisions are by powers of two, so this is real division exactly. */
  predicate UnderFiveMegabytes(size: nat)
  {
    (size as real) / 1024.0 / 1024.0 < 5.0
  }

  /** The size test is a comparison of the byte count with 5 MiB. */
  lemma UnderFiveMegabytesIsBytes(size: nat)
    ensures UnderFiveMegabytes(size) <==> size < MaxBytes
  {
    var x := (size as real) / 1024.0 / 1024.0;
    assert x * 1048576.0 == size as real;
  }

  /** `beforeUpload`: the type is checked first, then the size. */
  function BeforeUpload(f: File): (r: Check)
    ensures r == Accept <==> IsImage(f.mimeType) && f.size < MaxBytes
    ensures !IsImage(f.mimeType) ==> r == Reject(NotImage)
    ensures IsImage(f.mimeType) && f.size >= MaxBytes ==> r == Reject(TooLarge)
  {
    UnderFiveMegabytesIsBytes(f.size);
    if !IsImage(f.mimeType) then Reject(NotImage)
    else if !UnderFiveMegabytes(f.size) then Reject(TooLarge)
    else Accept
  }

  /** The fields of the upload configuration that are data (the check is `BeforeUpload`). */
  datatype Config = Config(action: string, headers: map<string, string>, showFileList: bool)

  /** `createUploadConfig`: `kind` is None when the argument is omitted (undefined), and
      the type is then 'general'. */
  function UploadConfig(kind: Option<string>, token: Option<string>): (c: Config)
    ensures kind.None? ==> c.action == "/api/upload?type=general"
    ensures kind.Some? ==> c.action == "/api/upload?type=" + kind.value
    ensures c.headers == UploadHeaders(token) && !c.showFileList
  {
    var t := if kind.Some? then kind.value else "general";
    Config("/api/upload?type=" + t, UploadHeaders(token), false)
  }

  /** Whatever the type, an upload request is authorized exactly when a token is stored. */
  lemma ConfigAuthorized(kind: Option<string>, token: Option<string>)
    ensures Authorization in UploadConfig(kind, token).headers <==> Truthy(token)
  {
  }

  /** An image of exactly 5 MiB is refused, one byte less is accepted. */
  lemma SizeBoundary(mimeType: string)
    requires IsImage(mimeType)
    ensures BeforeUpload(File(mimeType, MaxBytes)) == Reject(TooLarge)
    ensures BeforeUpload(File(mimeType, MaxBytes - 1)) == Accept
  {
  }
}
