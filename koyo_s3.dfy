/** The state kept by `Koyo::AwsUtils::S3` (lib/koyo/aws_utils/s3.rb): the
    per-instance header hash that every upload hands to the SDK, how an upload
    picks its object key, and the request a signed URL is made from. The SDK
    calls themselves are not modelled; an upload is recorded in a ghost log. */
module KoyoS3 {
  import opened RubyText

  datatype Option<T> = None | Some(value: T)

  /** The symbols the helper uses as keys of its header hash. */
  datatype HeaderName = Acl | ContentType | ContentDisposition

  type Headers = map<HeaderName, string>

  /** A content-type hint as Ruby sees it: nil; a String or a Symbol (both
      answer `to_s` and `to_sym` with the same name); or any other object,
      which answers `to_s` but has no `to_sym`. */
  datatype Hint = Nil | Name(name: string) | Other(text: string)

  /** The exception the helper can raise itself, before any SDK call. */
  datatype Error = NoMethodToSym(receiverText: string)

  datatype Result<T> = Ok(value: T) | Raised(error: Error)

  datatype Outcome = Pass | Fail(error: Error)

  /** What `upload_file` is handed: the bucket, the key, the local file and
      the header hash as it stands at that moment. */
  datatype Upload = Upload(bucket: Option<string>, key: Option<string>, file: string, headers: Headers)

  /** What the presigner is asked for: a GET of `key` in `bucket`, valid for
      `expiresIn` seconds. */
  datatype Presign = Presign(bucket: Option<string>, key: string, expiresIn: int)

  const PublicReadAcl: string := "public-read"
  const CsvType: string := "text/csv"
  const PdfType: string := "application/pdf"
  const AttachmentPrefix: string := "attachment; filename="
  const DefaultExpiration: int := 900

  /** `x.to_s` for a value that is nil or a string. */
  function OptionText(x: Option<string>): string
  {
    match x
    case None => ""
    case Some(s) => s
  }

  /** `val.to_s` for a hint. */
  function HintText(h: Hint): string
  {
    match h
    case Nil => ""
    case Name(n) => n
    case Other(t) => t
  }

  /** `blank?(val)`: nil, or a value whose `to_s` is empty. */
  predicate Blank(h: Hint)
  {
    h.Nil? || HintText(h) == ""
  }

  /** The default of the `public_read:` argument:
      `ENV["KOYO_S3_PUBLIC"].to_s.downcase == "true"`. */
  function PublicReadDefault(env: Option<string>): bool
  {
    Downcase(OptionText(env)) == "true"
  }

  /** `key_from_file(fname)`: `fname.to_s.split("/").last`, which is nil when
      the split leaves no field. */
  function KeyFromFile(fname: string): (k: Option<string>)
    ensures k.Some? ==> k.value != [] && Slash !in k.value
  {
    var parts := SplitOnSlash(fname);
    FieldsHaveNoSlash(fname);
    if parts == [] then None else Some(parts[|parts| - 1])
  }

  /** The key `put_file` uses: the one given (even ""), else the file's. */
  function UploadKey(fname: string, key: Option<string>): Option<string>
  {
    if key.Some? then key else KeyFromFile(fname)
  }

  /** The header hash after `set_content_type(hint, key)`, or the exception
      it raises. */
  function ContentTypeHeaders(h: Headers, hint: Hint, key: Option<string>): Result<Headers>
  {
    if Blank(hint) then Ok(h)
    else if hint.Other? then Raised(NoMethodToSym(hint.text))
    else if hint.name == "csv" then
      Ok(h[ContentDisposition := AttachmentPrefix + OptionText(key)][ContentType := CsvType])
    else if hint.name == "pdf" then Ok(h[ContentType := PdfType])
    else Ok(h)
  }

  /** One `S3` instance. The fields are those the helper's methods read or
      write; the SDK handles are left out. */
  class S3 {
    var bucket: Option<string>
    var publicRead: bool
    var region: Option<string>
    var headers: Headers
    /** Every call made to `upload_file`, oldest first. */
    ghost var uploads: seq<Upload>

    /** `initialize`: the header hash starts empty and gets `acl` only for
        a public-read instance. */
    constructor (bucket: Option<string>, publicRead: bool, region: Option<string>)
      ensures this.bucket == bucket && this.publicRead == publicRead && this.region == region
      ensures publicRead ==> headers == map[Acl := PublicReadAcl]
      ensures !publicRead ==> headers == map[]
      ensures uploads == []
    {
      this.bucket := bucket;
      this.publicRead := publicRead;
      this.region := region;
      var h: Headers := map[];
      if publicRead {
        h := h[Acl := PublicReadAcl];
      }
      headers := h;
      uploads := [];
    }

    /** `set_content_type(hint, key)`: changes the header hash in place, or
        raises when the hint has no `to_sym`. */
    method SetContentType(hint: Hint, key: Option<string>) returns (outcome: Outcome)
      modifies this`headers
      ensures ContentTypeHeaders(old(headers), hint, key) == Ok(headers) <==> outcome.Pass?
      ensures outcome.Fail? ==>
        headers == old(headers) && ContentTypeHeaders(old(headers), hint, key) == Raised(outcome.error)
    {
      if Blank(hint) {
        return Pass;
      }
      if hint.Other? {
        return Fail(NoMethodToSym(hint.text));
      }
      var sym := hint.name;
      if sym == "csv" {
        headers := headers[ContentDisposition := AttachmentPrefix + OptionText(key)];
        headers := headers[ContentType := CsvType];
      } else if sym == "pdf" {
        headers := headers[ContentType := PdfType];
      }
      outcome := Pass;
    }

    /** `put_file(fname, key:, content_type:)`: settles the key, updates the
        header hash and hands both to the upload, then returns the key. */
    method PutFile(fname: string, key: Option<string>, hint: Hint) returns (r: Result<Option<string>>)
      modifies this`headers, this`uploads
      ensures r.Ok? ==> r.value == UploadKey(fname, key)
      ensures r.Ok? <==> ContentTypeHeaders(old(headers), hint, UploadKey(fname, key)) == Ok(headers)
      ensures r.Ok? ==> uploads == old(uploads) + [Upload(bucket, r.value, fname, headers)]
      ensures r.Raised? ==> headers == old(headers) && uploads == old(uploads)
      ensures r.Raised? ==> ContentTypeHeaders(old(headers), hint, UploadKey(fname, key)) == Raised(r.error)
    {
      var k := key;
      if k.None? {
        k := KeyFromFile(fname);
      }
      var outcome := SetContentType(hint, k);
      if outcome.Fail? {
        return Raised(outcome.error);
      }
      uploads := uploads + [Upload(bucket, k, fname, headers)];
      r := Ok(k);
    }

    /** `signed_url(key, expiration = 900)`: the presign request it makes. */
    function SignedUrlRequest(key: string, expiration: Option<int>): (p: Presign)
      reads this
      ensures p.bucket == bucket && p.key == key
      ensures expiration.None? ==> p.expiresIn == DefaultExpiration
      ensures expiration.Some? ==> p.expiresIn == expiration.value
    {
      Presign(bucket, key, if expiration.Some? then expiration.value else DefaultExpiration)
    }
  }
}
