/**
 * MinioService: how an uploaded object is named and addressed, and when an upload is
 * attempted at all. The object store, the HTTP download and the random UUID are
 * outside the model: the UUID and the outcome of the store call are parameters, and
 * the request sent to the store is part of the result.
 */
module Minio {
  import opened Wrappers
  import opened JavaText

  const DefaultExtension := ".jpg"
  const PngExtension := ".png"
  /** The content type stored when the download reports none. */
  const DefaultContentType := "image/jpeg"
  /** The message of the RuntimeException uploadImage throws on any failure. */
  const UploadFailedMessage := "이미지 업로드에 실패했습니다."

  /** A multipart upload: isEmpty() holds when its size is 0. */
  datatype UploadFile = UploadFile(originalName: Option<string>, contentType: Option<string>, size: nat)

  /** The outcome of opening the connection for a download. */
  datatype HttpReply = ConnectFailure | Reply(status: int, contentType: Option<string>, size: nat)

  /** The putObject request sent to the store. */
  datatype PutObject = PutObject(bucket: string, objectName: string, contentType: Option<string>, size: nat)

  /** String.lastIndexOf for one char, -1 when absent. */
  function LastIndexOf(s: string, c: char): (r: int)
    ensures -1 <= r < |s|
    ensures r >= 0 ==> s[r] == c && forall j | r < j < |s| :: s[j] != c
    ensures r == -1 <==> c !in s
  {
    if s == [] then -1
    else if s[|s| - 1] == c then |s| - 1
    else
      var r := LastIndexOf(s[..|s| - 1], c);
      assert r == -1 ==> forall j | 0 <= j < |s| :: s[j] != c by {
        if r == -1 {
          forall j | 0 <= j < |s| ensures s[j] != c {
            if j < |s| - 1 {
              assert s[..|s| - 1][j] == s[j];
            }
          }
        }
      }
      r
  }

  /** The extension uploadImage gives the object: the original name from its last '.'
      on, or ".jpg" when there is no name or no '.' in it. */
  function UploadExtension(originalName: Option<string>): (ext: string)
    ensures originalName.None? || '.' !in originalName.value ==> ext == DefaultExtension
    ensures originalName.Some? && '.' in originalName.value ==>
      EndsWith(originalName.value, ext) && |ext| >= 1 && ext[0] == '.' && '.' !in ext[1..]
  {
    match originalName
    case None => DefaultExtension
    case Some(name) =>
      if '.' in name then
        var ext := name[LastIndexOf(name, '.')..];
        assert forall j | 0 <= j < |ext[1..]| :: ext[1..][j] == name[LastIndexOf(name, '.') + 1 + j];
        ext
      else DefaultExtension
  }

  /** The extension uploadFromUrl gives the object: ".png" when the reported content
      type mentions png, ".jpg" otherwise. */
  function DownloadExtension(contentType: Option<string>): (ext: string)
    ensures ext == PngExtension <==> contentType.Some? && Contains(contentType.value, "png")
    ensures ext == PngExtension || ext == DefaultExtension
  {
    if contentType.Some? && Contains(contentType.value, "png") then PngExtension else DefaultExtension
  }

  /** The configured base URL with a '/' appended only when it lacks one. */
  function BaseUrl(minioUrl: string): (b: string)
    ensures EndsWith(b, "/") && StartsWith(b, minioUrl)
    ensures EndsWith(minioUrl, "/") ==> b == minioUrl
    ensures !EndsWith(minioUrl, "/") ==> b == minioUrl + "/"
  {
    if EndsWith(minioUrl, "/") then minioUrl
    else
      assert (minioUrl + "/")[..|minioUrl|] == minioUrl;
      minioUrl + "/"
  }

  /** The public URL of an object: base URL, bucket, '/', object name. */
  function ObjectUrl(minioUrl: string, bucket: string, objectName: string): (u: string)
    ensures StartsWith(u, minioUrl)
    ensures StartsWith(u, BaseUrl(minioUrl) + bucket + "/")
    ensures EndsWith(u, "/" + objectName)
    ensures |u| == |BaseUrl(minioUrl)| + |bucket| + 1 + |objectName|
  {
    var prefix := BaseUrl(minioUrl) + bucket + "/";
    var u := prefix + objectName;
    assert u[..|prefix|] == prefix;
    assert u[..|minioUrl|] == BaseUrl(minioUrl)[..|minioUrl|];
    assert u[|u| - |"/" + objectName|..] == "/" + objectName;
    u
  }

  /** uploadImage: the result (a URL, null, or the RuntimeException's message) and the
      request it sends to the store, if any. `read` is whether opening the file's stream
      succeeds (a failure there throws before any request), `sent` whether the store
      call succeeds. */
  function UploadImage(file: Option<UploadFile>, uuid: string, minioUrl: string, bucket: string,
                       read: bool, sent: bool): (r: (Result<Option<string>, string>, Option<PutObject>))
    ensures file.None? || file.value.size == 0 ==> r == (Ok(None), None)
    ensures r.0.Ok? && r.0.value.Some? <==> file.Some? && file.value.size > 0 && read && sent
    ensures r.0.Err? <==> file.Some? && file.value.size > 0 && !(read && sent)
    ensures r.0.Err? ==> r.0.error == UploadFailedMessage
    ensures r.1.Some? <==> file.Some? && file.value.size > 0 && read
  {
    match file
    case None => (Ok(None), None)
    case Some(f) =>
      if f.size == 0 then (Ok(None), None)
      else if !read then (Err(UploadFailedMessage), None)
      else
        var name := uuid + UploadExtension(f.originalName);
        var put := PutObject(bucket, name, f.contentType, f.size);
        if sent then (Ok(Some(ObjectUrl(minioUrl, bucket, name))), Some(put))
        else (Err(UploadFailedMessage), Some(put))
  }

  /** uploadFromUrl: never throws; null on a failed connection, on a status other than
      200, on a failed read of the body (before any request to the store) or on a
      failed store call. */
  function UploadFromUrl(reply: HttpReply, uuid: string, minioUrl: string, bucket: string,
                         read: bool, sent: bool): (r: (Option<string>, Option<PutObject>))
    ensures r.0.Some? <==> reply.Reply? && reply.status == 200 && read && sent
    ensures r.1.Some? <==> reply.Reply? && reply.status == 200 && read
  {
    match reply
    case ConnectFailure => (None, None)
    case Reply(status, contentType, size) =>
      if status != 200 || !read then (None, None)
      else
        var name := uuid + DownloadExtension(contentType);
        var put := PutObject(bucket, name, Some(contentType.GetOr(DefaultContentType)), size);
        if sent then (Some(ObjectUrl(minioUrl, bucket, name)), Some(put)) else (None, Some(put))
  }

  // ---------------------------------------------------------------------------
  // Properties

  /** The '/' is appended only when missing: a base URL with or without its trailing
      '/' gives the same object URL, and normalising it first changes nothing. */
  lemma ObjectUrlSlashInsensitive(minioUrl: string, bucket: string, objectName: string)
    ensures !EndsWith(minioUrl, "/") ==>
      ObjectUrl(minioUrl + "/", bucket, objectName) == ObjectUrl(minioUrl, bucket, objectName)
    ensures ObjectUrl(BaseUrl(minioUrl), bucket, objectName) == ObjectUrl(minioUrl, bucket, objectName)
  {
    assert EndsWith(minioUrl + "/", "/") by {
      assert (minioUrl + "/")[|minioUrl + "/"| - 1..] == "/";
    }
  }

  /** A successful uploadImage returns the URL of the object it stored, whose name is
      the UUID followed by the original name's extension. */
  lemma UploadImageNamesStoredObject(file: Option<UploadFile>, uuid: string, minioUrl: string,
                                     bucket: string, read: bool, sent: bool)
    requires UploadImage(file, uuid, minioUrl, bucket, read, sent).0.Ok?
    requires UploadImage(file, uuid, minioUrl, bucket, read, sent).0.value.Some?
    ensures UploadImage(file, uuid, minioUrl, bucket, read, sent).1.Some?
    ensures UploadImage(file, uuid, minioUrl, bucket, read, sent).1.value.objectName
      == uuid + UploadExtension(file.value.originalName)
    ensures UploadImage(file, uuid, minioUrl, bucket, read, sent).0.value.value
      == ObjectUrl(minioUrl, bucket, uuid + UploadExtension(file.value.originalName))
  {
  }

  /** A successful uploadFromUrl stores the object under the URL it returns, with the
      reported content type or image/jpeg when none was reported. */
  lemma UploadFromUrlStoresObject(reply: HttpReply, uuid: string, minioUrl: string, bucket: string)
    requires reply.Reply? && reply.status == 200
    ensures UploadFromUrl(reply, uuid, minioUrl, bucket, true, true).1
      == Some(PutObject(bucket, uuid + DownloadExtension(reply.contentType),
                        Some(reply.contentType.GetOr(DefaultContentType)), reply.size))
    ensures UploadFromUrl(reply, uuid, minioUrl, bucket, true, true).0
      == Some(ObjectUrl(minioUrl, bucket, uuid + DownloadExtension(reply.contentType)))
    ensures reply.contentType.None? ==>
      UploadFromUrl(reply, uuid, minioUrl, bucket, true, true).1.value.contentType == Some(DefaultContentType)
  {
  }

  /** For a name with several dots, only the part after the last one is kept. */
  lemma UploadExtensionSample(name: string)
    requires name == "archive.tar.gz"
    ensures UploadExtension(Some(name)) == ".gz"
  {
    assert name[11] == '.';
    var ext := UploadExtension(Some(name));
    assert EndsWith(name, ext) && '.' !in ext[1..];
    assert name[|name| - |ext|] == '.';
  }
}
