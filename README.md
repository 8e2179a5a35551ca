# koyo-aws-utils: the S3 helper's header state and key derivation

`Koyo::AwsUtils::S3` (lib/koyo/aws_utils/s3.rb) is a thin wrapper around the
AWS S3 SDK for one bucket. Listing, download, delete, upload and presigning
are single SDK calls. The helper's own logic is small:

- a per-instance header hash, filled at construction and changed in place
  before every upload;
- the object key an upload uses;
- the `blank?` test that decides when a content-type hint is ignored;
- the default expiry of a signed URL.

This project models that logic in Dafny and proves what it promises.

Files:

- `ruby_text.dfy` (module `RubyText`): the Ruby String behaviour the helper
  depends on. `SplitOnSlash` is `String#split("/")`, built as `Fields`
  (every field, empty ones included) followed by `DropTrailingEmpty`. Ruby's
  `split` without a limit drops trailing empty fields. `Downcase` is
  `String#downcase` on ASCII letters.
- `koyo_s3.dfy` (module `KoyoS3`): the helper itself.
  - Headers are a `map<HeaderName, string>` over the three symbols the
    helper uses (`:acl`, `:content_type`, `:content_disposition`).
  - `KeyFromFile` is `key_from_file`. It returns `None` where Ruby's `last`
    returns nil.
  - `Blank` is `blank?`.
  - `ContentTypeHeaders` is the header hash after `set_content_type`, or
    the exception that method raises.
  - `UploadKey` is `put_file`'s `key ||= key_from_file(fname)`.
  - `PublicReadDefault` is the default of `public_read:`.
  - Class `S3` holds the fields its methods change. Its constructor,
    `SetContentType` and `PutFile` update `headers` in place, as the Ruby
    methods do. Each upload is recorded in the ghost log `uploads` as the
    arguments handed to `upload_file`: bucket, key, file and the header hash
    at that moment.
- `koyo_s3_properties.dfy` (module `KoyoS3Properties`): the properties.
  - `LastPathSegment` is an independent reading of "last path segment": trim
    the trailing slashes, then take the text after the last slash. It is
    proved equal to `KeyFromFile` on every input.
  - `AfterPuts` folds a series of `put_file` calls over the header hash, and
    `Sent` lists the uploads those calls hand to `upload_file`. `PutEach` is
    a caller that makes those calls on one instance. It is proved to leave
    exactly that hash and to log exactly those uploads.
  - `StickyHeadersClient` is a caller that uses only the class contracts.
    It shows that one instance sends the second and third uploads with
    headers the first upload set.

A content-type hint is a `Hint`:

- `Nil` for nil;
- `Name(s)` for a String or Symbol, which both answer `to_s` and `to_sym`
  with the same name;
- `Other(text)` for any other object. Such an object answers `to_s`, but
  `to_sym` raises `NoMethodError`. A blank `Other` returns early. A non-blank
  one raises before any header changes and before the upload, and the model
  returns `Raised`.

The source's comments describe two of these operations only briefly:
`key_from_file` "generates a S3 Key from a filename" (s3.rb:89), and
`put_file` lists the hints as "nil: does nothing", csv and pdf (s3.rb:58-62).
The model follows the code in the cases those comments leave open:

- `split` drops trailing empty fields before `last` is taken, so `"a/b/"`
  is keyed `"b"`. An empty or all-slash name is keyed nil. `put_file` has
  already updated the headers with that nil key (for csv the disposition
  reads `attachment; filename=`) when it hands nil to the SDK at s3.rb:66.
  The SDK raises there, and that failure is not modelled (see Left out).
- A String or Symbol hint other than "csv" or "pdf" leaves the headers as
  they were. A non-blank hint that has no `to_sym` raises `NoMethodError`
  instead, before any header changes.

## Model

| member | source | states |
|---|---|---|
| `KoyoS3.S3.constructor` | lib/koyo/aws_utils/s3.rb:24-31 | bucket, public-read flag and region are stored; the header hash is exactly `{acl: "public-read"}` when public read is on and empty otherwise; no upload has happened |
| `KoyoS3Properties.PublicReadDefaultIff` | lib/koyo/aws_utils/s3.rb:25 | the default public-read flag is true exactly when `KOYO_S3_PUBLIC` is set and spells "true" in any mix of upper and lower case; an unset variable gives false |
| `KoyoS3.PublicReadDefault` | lib/koyo/aws_utils/s3.rb:25 | the default of `public_read:`, the downcased `KOYO_S3_PUBLIC` (nil read as "") compared with "true"; what that accepts is proved in `PublicReadDefaultIff` |
| `RubyText.DowncaseEqualsLowerWord` | lib/koyo/aws_utils/s3.rb:25 | the ASCII downcase modelled here turns `s` into a lower-case ASCII word exactly when `s` has the word's length and each character is the word's letter in either case; for "true" this is also Ruby's Unicode downcase (see Left out) |
| `RubyText.SplitOnSlash` | lib/koyo/aws_utils/s3.rb:91 | `split("/")`: every field, then the empty fields at the end dropped; its meaning is proved in `JoinFields`, `FieldsOfJoin`, `FieldsHaveNoSlash`, `DropTrailingEmpty` and the two lemmas about a trailing slash |
| `RubyText.JoinFields` | lib/koyo/aws_utils/s3.rb:91 | the fields split on "/", joined back with "/", give the original name: splitting loses nothing |
| `RubyText.FieldsHaveNoSlash` | lib/koyo/aws_utils/s3.rb:91 | no field produced by the split contains a slash |
| `RubyText.FieldsOfJoin` | lib/koyo/aws_utils/s3.rb:91 | splitting the join of slash-free fields gives back exactly those fields, so split and join are inverse |
| `RubyText.DropTrailingEmpty` | lib/koyo/aws_utils/s3.rb:91 | the result is a prefix of the fields that is empty or ends in a non-empty field, and every field dropped is empty |
| `RubyText.SplitIgnoresTrailingSlash` | lib/koyo/aws_utils/s3.rb:91 | a slash at the end of a name does not change its split |
| `RubyText.SplitKeepsAllFields` | lib/koyo/aws_utils/s3.rb:91 | a name that does not end in a slash keeps every field, empty ones included |
| `RubyText.LastFieldIsAfterLastSlash` | lib/koyo/aws_utils/s3.rb:91 | the last field of a name is the text after its last slash |
| `KoyoS3.KeyFromFile` | lib/koyo/aws_utils/s3.rb:90-92 | `key_from_file`: a key it finds is never empty and never holds a slash; which key it finds is proved in `KeyFromFileIsLastPathSegment` and `KeyFromFileSomeIff` |
| `KoyoS3Properties.KeyFromFileIsLastPathSegment` | lib/koyo/aws_utils/s3.rb:90-92 | for every name, split-then-last equals "trim trailing slashes, take what follows the last slash, nil if nothing is left" |
| `KoyoS3Properties.KeyFromFileNilIff` | lib/koyo/aws_utils/s3.rb:91 | the derived key is nil exactly when the name is empty or all slashes |
| `KoyoS3Properties.KeyFromFileIsSegment` | lib/koyo/aws_utils/s3.rb:90-92 | a derived key is a non-empty, slash-free segment of the name that starts the name or follows a slash, with only slashes after it |
| `KoyoS3Properties.SegmentIsKeyFromFile` | lib/koyo/aws_utils/s3.rb:90-92 | any such segment is the derived key, so the segment is unique |
| `KoyoS3Properties.KeyFromFileSomeIff` | lib/koyo/aws_utils/s3.rb:90-92 | the derived key is `k` if and only if `k` is the last non-empty segment of the name (both directions) |
| `KoyoS3Properties.KeyFromFileInDirectory` | lib/koyo/aws_utils/s3.rb:90-92 | a file name after a directory and a slash is keyed by the file name alone |
| `KoyoS3Properties.KeyFromFileOfBareName` | lib/koyo/aws_utils/s3.rb:90-92 | a name with no slash is its own key |
| `KoyoS3Properties.KeyFromFileIgnoresTrailingSlash` | lib/koyo/aws_utils/s3.rb:91 | adding a slash at the end of a name never changes its key |
| `KoyoS3Properties.KeyFromFileExamples` | lib/koyo/aws_utils/s3.rb:89-92 | "/a/b/c.csv" and "c.csv" are both keyed "c.csv" |
| `KoyoS3Properties.KeyFromFileTrailingSlash` | lib/koyo/aws_utils/s3.rb:91 | "a/b/" is keyed "b" |
| `KoyoS3Properties.KeyFromFileNilExamples` | lib/koyo/aws_utils/s3.rb:91 | "" and "///" are keyed nil |
| `KoyoS3.UploadKey` | lib/koyo/aws_utils/s3.rb:64 | `key ||= key_from_file(fname)`; its cases are proved in `UploadKeyDefault` |
| `KoyoS3Properties.UploadKeyDefault` | lib/koyo/aws_utils/s3.rb:64 | a key that is given is used as it is, even "", and otherwise the key comes from the file name; the upload key is nil exactly when no key is given and the name is all slashes |
| `KoyoS3.Blank` | lib/koyo/aws_utils/s3.rb:117-119 | `blank?`: nil, or a value whose `to_s` is ""; that a blank hint changes nothing is proved in `BlankHintKeepsHeaders`, and that only a non-blank hint can raise in `ContentTypeRaisesIff` |
| `KoyoS3.ContentTypeHeaders` | lib/koyo/aws_utils/s3.rb:95-105 | the header hash `set_content_type` leaves, or the `NoMethodError` it raises; its meaning is proved in `ContentTypeRaisesIff`, `CsvHintHeaders`, `PdfHintHeaders`, `UnknownHintKeepsHeaders`, `ContentTypeOnlyAssigns` and `ContentTypeIdempotent` |
| `KoyoS3.S3.SetContentType` | lib/koyo/aws_utils/s3.rb:95-105 | the header hash becomes the result of the content-type update, or stays unchanged while the method reports the `NoMethodError` that `to_sym` raises |
| `KoyoS3Properties.BlankHintKeepsHeaders` | lib/koyo/aws_utils/s3.rb:96 | a hint that is `blank?` (nil, or `to_s` is "") leaves the headers unchanged, whatever kind of object it is |
| `KoyoS3Properties.UnknownHintKeepsHeaders` | lib/koyo/aws_utils/s3.rb:98-104 | a named hint other than exactly "csv" or "pdf" leaves the headers unchanged; the match is case-sensitive |
| `KoyoS3Properties.ContentTypeRaisesIff` | lib/koyo/aws_utils/s3.rb:96-98 | the update raises exactly when the hint is a non-blank object without `to_sym` |
| `KoyoS3Properties.CsvHintHeaders` | lib/koyo/aws_utils/s3.rb:99-101 | "csv" sets `content_type` to "text/csv" and `content_disposition` to "attachment; filename=" followed by the key, with nil giving ""; it adds exactly those two keys and leaves every other entry as it was |
| `KoyoS3Properties.PdfHintHeaders` | lib/koyo/aws_utils/s3.rb:102-103 | "pdf" sets `content_type` to "application/pdf", adds no other key and keeps every other entry, including an earlier `content_disposition` |
| `KoyoS3Properties.ContentTypeOnlyAssigns` | lib/koyo/aws_utils/s3.rb:95-105 | the update never removes an entry, only adds or changes `content_type` and `content_disposition`, and never touches `acl` |
| `KoyoS3Properties.ContentTypeIdempotent` | lib/koyo/aws_utils/s3.rb:95-105 | running the update a second time with the same hint and key changes nothing |
| `KoyoS3.S3.PutFile` | lib/koyo/aws_utils/s3.rb:63-68 | returns the settled key; the headers handed to the upload are exactly the state after the content-type update with that key; one upload is logged with that key, file and those headers; when the update raises, neither the headers nor the log change |
| `KoyoS3Properties.AfterPutsAppend` | lib/koyo/aws_utils/s3.rb:63-68 | the headers after a series of uploads followed by one more are the headers after the series, updated by that one upload |
| `KoyoS3Properties.SentAppend` | lib/koyo/aws_utils/s3.rb:63-68 | what a series of uploads followed by one more sends is what the series sends, then what that one call sends from the headers the series left |
| `KoyoS3Properties.PutEach` | lib/koyo/aws_utils/s3.rb:63-68 | calling `put_file` on one instance for each call in turn leaves its header hash equal to the fold `AfterPuts`, and appends to its log exactly the uploads `Sent` lists: one per call that did not raise, with that call's key and file and the headers it left |
| `KoyoS3Properties.HeadersPersistAcrossPuts` | lib/koyo/aws_utils/s3.rb:63-68 | over any series of uploads on one instance, no key of the header hash is ever removed, only the two content keys can be added, and `acl` is present, with the value construction gave it, exactly when it was present at the start |
| `KoyoS3Properties.ContentTypeSticks` | lib/koyo/aws_utils/s3.rb:65 | once `content_type` is set, every later upload on the instance still carries one |
| `KoyoS3Properties.StaleHeadersAfterCsv` | lib/koyo/aws_utils/s3.rb:99-103 | after a csv upload, a pdf upload is still sent as an attachment named after the csv key, and an unhinted upload is still sent as text/csv |
| `KoyoS3Properties.StaleHeadersSent` | lib/koyo/aws_utils/s3.rb:63-68 | of a csv upload followed by a pdf or an unhinted one, two uploads are sent, and the second goes out with the csv key's disposition, and for the unhinted one with text/csv |
| `KoyoS3.S3.SignedUrlRequest` | lib/koyo/aws_utils/s3.rb:109-114 | a signed URL asks for the instance's bucket and the given key, expiring after 900 seconds when no expiration is passed and after the given number otherwise |

## Left out

- `list_bucket`, `bucket_obj`, `get_file` and `delete_file` (lib/koyo/aws_utils/s3.rb:49-56, 78-87) are single calls into the AWS SDK, whose behaviour is not part of this model.
- The upload itself (lib/koyo/aws_utils/s3.rb:66-67) is a call into the SDK. It is recorded as an entry of the ghost log `uploads`. SDK failures are not modelled: an unreadable file, a nil key or a rejected request would all raise in the SDK.
- KoyoS3.S3.SignedUrlRequest: the presigning itself (lib/koyo/aws_utils/s3.rb:110-114) is an SDK call. Only the request's bucket, key and expiry are modelled. `None` stands for an omitted expiration. Passing nil explicitly, which Ruby hands on unchanged, is not modelled.
- `update_aws_config` and the creation of the SDK handles in `initialize` (lib/koyo/aws_utils/s3.rb:32-45) change process-wide SDK configuration. That is global external state.
- KoyoS3.S3.constructor: `public_read` is taken to be a boolean. Ruby's `if public_read` (s3.rb:31) tests truthiness, so every value other than nil and false, the string "false" included, sets `acl`. Non-boolean arguments are not modelled.
- KoyoS3Properties.PutEach: a caller that rescues each raised `NoMethodError` and goes on is modelled. In Ruby an unrescued raise ends the caller's series there.
- Environment reads (`KOYO_S3_BUCKET`, `KOYO_S3_PUBLIC`, `KOYO_S3_REGION`, `KOYO_S3_KEY`, `KOYO_S3_SECRET`) become constructor parameters. `PublicReadDefault` takes the `KOYO_S3_PUBLIC` value as an argument.
- RubyText.Downcase: only ASCII capitals are lowered. Ruby's full Unicode `downcase` maps no other character to "t", "r", "u" or "e", so the comparison with "true" gives the same answer. Strings with invalid encodings, on which Ruby raises, are not modelled.
- `attr_accessor` setters (lib/koyo/aws_utils/s3.rb:16-21) let callers replace `bucket`, `headers` and the other fields from outside. They are generated by Ruby, not written logic, and are not modelled.
- The header hash is a Dafny map, so Ruby's insertion order of hash keys is not represented.
- `fname` is taken to be a string. `to_s` on other objects, such as a Pathname, is not modelled.
- Concurrent use of one instance is not modelled. A second thread could change `headers` between `set_content_type` and the upload.
- lib/koyo/aws_utils.rb holds only an empty `Error` class and a `Test.test` that prints, so it has no logic to model.
