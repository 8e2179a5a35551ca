/** What the S3 helper promises, stated over the functions of KoyoS3: the
    key derived from a file name, the header hash after each upload and
    across many, and the public-read default. */
module KoyoS3Properties {
  import opened RubyText
  import opened KoyoS3

  // ---------------------------------------------------------------------
  // key_from_file

  /** An independent reading of "the last path segment": drop the slashes at
      the end, then keep what follows the last remaining slash; nothing is
      left when the name holds only slashes. */
  function LastPathSegment(s: string): Option<string>
  {
    var t := TrimTrailingSlashes(s);
    if t == [] then None else Some(AfterLastSlash(t))
  }

  /** `k` is the segment of `s` that ends at position `e`: it is not empty,
      holds no slash, starts `s` or follows a slash, and only slashes come
      after it. */
  ghost predicate SegmentEndingAt(s: string, k: string, e: int)
  {
    && |k| <= e <= |s|
    && k != []
    && Slash !in k
    && s[e - |k|..e] == k
    && (e == |k| || s[e - |k| - 1] == Slash)
    && (forall j | e <= j < |s| :: s[j] == Slash)
  }

  /** Ruby's split-then-last agrees with the reading above on every name. */
  lemma {:induction false} KeyFromFileIsLastPathSegment(s: string)
    ensures KeyFromFile(s) == LastPathSegment(s)
  {
    if s == [] {
      assert Fields(s) == [[]];
      assert DropTrailingEmpty([[]]) == DropTrailingEmpty([]);
    } else if s[|s| - 1] == Slash {
      var init := s[..|s| - 1];
      KeyFromFileIsLastPathSegment(init);
      SplitIgnoresTrailingSlash(s);
      assert KeyFromFile(s) == KeyFromFile(init);
      assert TrimTrailingSlashes(s) == TrimTrailingSlashes(init);
    } else {
      SplitKeepsAllFields(s);
      LastFieldIsAfterLastSlash(s);
      var fs := Fields(s);
      assert KeyFromFile(s) == Some(fs[|fs| - 1]);
      assert TrimTrailingSlashes(s) == s;
    }
  }

  /** `key_from_file` gives nil exactly when the name is empty or all slashes. */
  lemma KeyFromFileNilIff(s: string)
    ensures KeyFromFile(s).None? <==> forall i | 0 <= i < |s| :: s[i] == Slash
  {
    KeyFromFileIsLastPathSegment(s);
    var t := TrimTrailingSlashes(s);
    if t != [] {
      assert s[|t| - 1] == t[|t| - 1];
    }
  }

  /** Two slash-free suffixes of `t`, each starting `t` or following a slash,
      are the same suffix. */
  lemma SlashFreeSuffixUnique(t: string, a: string, b: string)
    requires |a| <= |t| && a == t[|t| - |a|..] && Slash !in a && (|a| == |t| || t[|t| - |a| - 1] == Slash)
    requires |b| <= |t| && b == t[|t| - |b|..] && Slash !in b && (|b| == |t| || t[|t| - |b| - 1] == Slash)
    ensures a == b
  {
  }

  /** The key `key_from_file` finds is the segment ending where the
      trailing slashes begin. */
  lemma {:induction false} KeyFromFileIsSegment(s: string)
    requires KeyFromFile(s).Some?
    ensures SegmentEndingAt(s, KeyFromFile(s).value, |TrimTrailingSlashes(s)|)
  {
    KeyFromFileIsLastPathSegment(s);
    var t := TrimTrailingSlashes(s);
    var k := AfterLastSlash(t);
    assert k != [] by {
      if k == [] {
        assert false;
      }
    }
    assert s[|t| - |k|..|t|] == t[|t| - |k|..] by {
      assert t == s[..|t|];
    }
    if |k| < |t| {
      assert s[|t| - |k| - 1] == t[|t| - |k| - 1];
    }
  }

  /** A segment of `s` that ends where only slashes follow is the key. */
  lemma {:induction false} SegmentIsKeyFromFile(s: string, k: string, e: int)
    requires SegmentEndingAt(s, k, e)
    ensures KeyFromFile(s) == Some(k)
  {
    KeyFromFileIsLastPathSegment(s);
    var t := TrimTrailingSlashes(s);
    assert s[e - 1] == k[|k| - 1];
    if |t| > e {
      assert false;
    } else if |t| < e {
      assert false;
    }
    assert t == s[..e];
    assert k == t[|t| - |k|..];
    SlashFreeSuffixUnique(t, k, AfterLastSlash(t));
  }

  /** `key_from_file(s)` is `k` exactly when `k` is the last non-empty
      segment of `s`; so the key is never empty and never holds a slash. */
  lemma {:induction false} KeyFromFileSomeIff(s: string, k: string)
    ensures KeyFromFile(s) == Some(k) <==> exists e :: SegmentEndingAt(s, k, e)
  {
    if KeyFromFile(s) == Some(k) {
      KeyFromFileIsSegment(s);
    }
    if e :| SegmentEndingAt(s, k, e) {
      SegmentIsKeyFromFile(s, k, e);
    }
  }

  /** A file inside a directory is keyed by its own name. */
  lemma KeyFromFileInDirectory(dir: string, name: string)
    requires name != [] && Slash !in name
    ensures KeyFromFile(dir + [Slash] + name) == Some(name)
  {
    var s := dir + [Slash] + name;
    assert s[|s| - |name|..|s|] == name;
    assert s[|s| - |name| - 1] == Slash;
    SegmentIsKeyFromFile(s, name, |s|);
  }

  /** A name without a slash is its own key. */
  lemma KeyFromFileOfBareName(name: string)
    requires name != [] && Slash !in name
    ensures KeyFromFile(name) == Some(name)
  {
    assert name[0..|name|] == name;
    SegmentIsKeyFromFile(name, name, |name|);
  }

  /** "/a/b/c.csv" and "c.csv" are both keyed "c.csv". */
  lemma KeyFromFileExamples()
    ensures KeyFromFile("/a/b/c.csv") == Some("c.csv")
    ensures KeyFromFile("c.csv") == Some("c.csv")
  {
    assert "/a/b/c.csv" == "/a/b" + [Slash] + "c.csv";
    KeyFromFileInDirectory("/a/b", "c.csv");
    KeyFromFileOfBareName("c.csv");
  }

  /** A slash at the end of a name does not change its key. */
  lemma KeyFromFileIgnoresTrailingSlash(s: string)
    ensures KeyFromFile(s + [Slash]) == KeyFromFile(s)
  {
  }

  /** "a/b/" is keyed "b": the trailing slash is dropped first. */
  lemma KeyFromFileTrailingSlash()
    ensures KeyFromFile("a/b/") == Some("b")
  {
    assert "a/b/" == "a/b" + [Slash];
    KeyFromFileIgnoresTrailingSlash("a/b");
    assert "a/b" == "a" + [Slash] + "b";
    KeyFromFileInDirectory("a", "b");
  }

  /** The empty name and an all-slash name give nil. */
  lemma KeyFromFileNilExamples()
    ensures KeyFromFile("") == None
    ensures KeyFromFile("///") == None
  {
    KeyFromFileNilIff("");
    KeyFromFileNilIff("///");
  }

  /** `put_file` keeps a key it is given, even an empty one, and otherwise
      falls back to `key_from_file`, which is nil only for an all-slash name. */
  lemma UploadKeyDefault(fname: string, key: Option<string>)
    ensures key.Some? ==> UploadKey(fname, key) == key
    ensures key.None? ==> UploadKey(fname, key) == KeyFromFile(fname)
    ensures UploadKey(fname, key).None? <==> key.None? && forall i | 0 <= i < |fname| :: fname[i] == Slash
  {
    KeyFromFileNilIff(fname);
  }

  // ---------------------------------------------------------------------
  // set_content_type

  /** A blank hint (nil, or one whose `to_s` is "") changes nothing. */
  lemma BlankHintKeepsHeaders(h: Headers, hint: Hint, key: Option<string>)
    requires hint.Nil? || HintText(hint) == ""
    ensures ContentTypeHeaders(h, hint, key) == Ok(h)
  {
  }

  /** A hint other than "csv" and "pdf" changes nothing; the match is exact,
      so "CSV" or "Pdf" change nothing either. */
  lemma UnknownHintKeepsHeaders(h: Headers, name: string, key: Option<string>)
    requires name != "csv" && name != "pdf"
    ensures ContentTypeHeaders(h, Name(name), key) == Ok(h)
  {
  }

  /** The hint raises exactly when it is an object with no `to_sym` whose
      `to_s` is not empty. */
  lemma ContentTypeRaisesIff(h: Headers, hint: Hint, key: Option<string>)
    ensures ContentTypeHeaders(h, hint, key).Raised? <==> hint.Other? && hint.text != ""
  {
  }

  /** "csv" sets both the content type and an attachment disposition naming
      the key (nil interpolates as ""), and leaves every other entry alone. */
  lemma CsvHintHeaders(h: Headers, key: Option<string>)
    ensures var r := ContentTypeHeaders(h, Name("csv"), key);
      && r.Ok?
      && r.value.Keys == h.Keys + {ContentType, ContentDisposition}
      && r.value[ContentType] == "text/csv"
      && r.value[ContentDisposition] == "attachment; filename=" + OptionText(key)
      && (forall n | n in h && n != ContentType && n != ContentDisposition :: r.value[n] == h[n])
  {
  }

  /** "pdf" sets only the content type; an earlier disposition stays. */
  lemma PdfHintHeaders(h: Headers, key: Option<string>)
    ensures var r := ContentTypeHeaders(h, Name("pdf"), key);
      && r.Ok?
      && r.value.Keys == h.Keys + {ContentType}
      && r.value[ContentType] == "application/pdf"
      && (forall n | n in h && n != ContentType :: r.value[n] == h[n])
  {
  }

  /** No entry is ever removed, only the content type and disposition can be
      added or changed, and `acl` is never touched. */
  lemma ContentTypeOnlyAssigns(h: Headers, hint: Hint, key: Option<string>)
    ensures var r := ContentTypeHeaders(h, hint, key);
      r.Ok? ==>
        && h.Keys <= r.value.Keys <= h.Keys + {ContentType, ContentDisposition}
        && (forall n | n in h && n != ContentType && n != ContentDisposition :: r.value[n] == h[n])
  {
  }

  /** Repeating the same hint and key changes nothing further. */
  lemma ContentTypeIdempotent(h: Headers, hint: Hint, key: Option<string>)
    ensures var r := ContentTypeHeaders(h, hint, key);
      r.Ok? ==> ContentTypeHeaders(r.value, hint, key) == r
  {
    var r := ContentTypeHeaders(h, hint, key);
    if r.Ok? && !Blank(hint) {
      if hint.name == "csv" {
        assert r.value[ContentDisposition := AttachmentPrefix + OptionText(key)][ContentType := CsvType] == r.value;
      } else if hint.name == "pdf" {
        assert r.value[ContentType := PdfType] == r.value;
      }
    }
  }

  // ---------------------------------------------------------------------
  // put_file, call after call

  /** The arguments of one `put_file` call. */
  datatype PutCall = PutCall(fname: string, key: Option<string>, hint: Hint)

  /** The header hash after one `put_file` call; a call that raises leaves it
      as it was. */
  function AfterPut(h: Headers, c: PutCall): Headers
  {
    match ContentTypeHeaders(h, c.hint, UploadKey(c.fname, c.key))
    case Ok(h') => h'
    case Raised(_) => h
  }

  /** The header hash after a series of `put_file` calls on one instance. */
  function AfterPuts(h: Headers, calls: seq<PutCall>): Headers
    decreases |calls|
  {
    if calls == [] then h else AfterPuts(AfterPut(h, calls[0]), calls[1..])
  }

  /** Across any series of uploads the hash only grows: every entry persists,
      nothing but the content type and disposition is ever added, and `acl`
      keeps the value construction gave it. */
  lemma {:induction false} HeadersPersistAcrossPuts(h: Headers, calls: seq<PutCall>)
    ensures var r := AfterPuts(h, calls);
      && h.Keys <= r.Keys <= h.Keys + {ContentType, ContentDisposition}
      && (Acl in r <==> Acl in h)
      && (Acl in h ==> r[Acl] == h[Acl])
    decreases |calls|
  {
    if calls != [] {
      var c := calls[0];
      ContentTypeOnlyAssigns(h, c.hint, UploadKey(c.fname, c.key));
      HeadersPersistAcrossPuts(AfterPut(h, c), calls[1..]);
    }
  }

  /** Once a call has set the content type, every later call leaves one. */
  lemma {:induction false} ContentTypeSticks(h: Headers, calls: seq<PutCall>)
    requires ContentType in h
    ensures ContentType in AfterPuts(h, calls)
  {
    HeadersPersistAcrossPuts(h, calls);
  }

  /** One more call at the end of a series is one more step of the fold. */
  lemma {:induction false} AfterPutsAppend(h: Headers, calls: seq<PutCall>, c: PutCall)
    ensures AfterPuts(h, calls + [c]) == AfterPut(AfterPuts(h, calls), c)
    decreases |calls|
  {
    if calls == [] {
      assert [] + [c] == [c];
      assert [c][1..] == [];
    } else {
      assert (calls + [c])[1..] == calls[1..] + [c];
      AfterPutsAppend(AfterPut(h, calls[0]), calls[1..], c);
    }
  }

  /** What one `put_file` call hands to `upload_file`: nothing when it
      raises, otherwise one upload with the settled key and the headers the
      call left. */
  function UploadOf(bucket: Option<string>, h: Headers, c: PutCall): seq<Upload>
  {
    var k := UploadKey(c.fname, c.key);
    match ContentTypeHeaders(h, c.hint, k)
    case Ok(h') => [Upload(bucket, k, c.fname, h')]
    case Raised(_) => []
  }

  /** Everything a series of `put_file` calls on one instance hands to
      `upload_file`, oldest first. */
  function Sent(bucket: Option<string>, h: Headers, calls: seq<PutCall>): seq<Upload>
    decreases |calls|
  {
    if calls == [] then []
    else UploadOf(bucket, h, calls[0]) + Sent(bucket, AfterPut(h, calls[0]), calls[1..])
  }

  /** One more call at the end of a series sends what that call sends from
      the headers the series left. */
  lemma {:induction false} SentAppend(bucket: Option<string>, h: Headers, calls: seq<PutCall>, c: PutCall)
    ensures Sent(bucket, h, calls + [c]) == Sent(bucket, h, calls) + UploadOf(bucket, AfterPuts(h, calls), c)
    decreases |calls|
  {
    if calls == [] {
      assert [] + [c] == [c];
      assert [c][1..] == [];
    } else {
      assert (calls + [c])[1..] == calls[1..] + [c];
      SentAppend(bucket, AfterPut(h, calls[0]), calls[1..], c);
    }
  }

  /** A caller that hands each call in turn to `put_file` on one instance,
      rescuing a raised NoMethodError and going on with the next. The
      instance is left with the header hash AfterPuts gives and has sent
      exactly what Sent lists, so the lemmas about both hold of it. */
  method PutEach(s3: S3, calls: seq<PutCall>)
    modifies s3`headers, s3`uploads
    ensures s3.headers == AfterPuts(old(s3.headers), calls)
    ensures s3.uploads == old(s3.uploads) + Sent(s3.bucket, old(s3.headers), calls)
  {
    ghost var h0 := s3.headers;
    ghost var log0 := s3.uploads;
    for i := 0 to |calls|
      invariant s3.headers == AfterPuts(h0, calls[..i])
      invariant s3.uploads == log0 + Sent(s3.bucket, h0, calls[..i])
    {
      var c := calls[i];
      var r := s3.PutFile(c.fname, c.key, c.hint);
      AfterPutsAppend(h0, calls[..i], c);
      SentAppend(s3.bucket, h0, calls[..i], c);
      assert calls[..i + 1] == calls[..i] + [c];
    }
    assert calls[..|calls|] == calls;
  }

  /** The headers stick: after a "csv" upload, a "pdf" upload is still sent
      as an attachment named after the csv key, and an unhinted upload that
      follows is still sent as text/csv. */
  lemma StaleHeadersAfterCsv(h: Headers, csvFile: string, csvKey: string, other: string, otherKey: Option<string>)
    ensures var r := AfterPuts(h, [PutCall(csvFile, Some(csvKey), Name("csv")), PutCall(other, otherKey, Name("pdf"))]);
      && ContentType in r && r[ContentType] == "application/pdf"
      && ContentDisposition in r && r[ContentDisposition] == "attachment; filename=" + csvKey
    ensures var r := AfterPuts(h, [PutCall(csvFile, Some(csvKey), Name("csv")), PutCall(other, otherKey, Nil)]);
      && ContentType in r && r[ContentType] == "text/csv"
      && ContentDisposition in r && r[ContentDisposition] == "attachment; filename=" + csvKey
  {
    var c1 := PutCall(csvFile, Some(csvKey), Name("csv"));
    var h1 := AfterPut(h, c1);
    forall c2 | c2 == PutCall(other, otherKey, Name("pdf")) || c2 == PutCall(other, otherKey, Nil)
      ensures AfterPuts(h, [c1, c2]) == AfterPut(h1, c2)
    {
      assert [c1, c2][1..] == [c2];
      assert AfterPuts(h1, [c2]) == AfterPuts(AfterPut(h1, c2), []);
    }
  }

  /** The same as sent: after a "csv" upload, the "pdf" or unhinted upload
      that follows is handed to `upload_file` with the csv upload's
      disposition, and the unhinted one also with its content type. */
  lemma StaleHeadersSent(bucket: Option<string>, h: Headers, csvFile: string, csvKey: string, other: string, otherKey: Option<string>)
    ensures var sent := Sent(bucket, h, [PutCall(csvFile, Some(csvKey), Name("csv")), PutCall(other, otherKey, Name("pdf"))]);
      && |sent| == 2
      && sent[1].file == other && sent[1].key == UploadKey(other, otherKey)
      && ContentType in sent[1].headers && sent[1].headers[ContentType] == "application/pdf"
      && ContentDisposition in sent[1].headers && sent[1].headers[ContentDisposition] == "attachment; filename=" + csvKey
    ensures var sent := Sent(bucket, h, [PutCall(csvFile, Some(csvKey), Name("csv")), PutCall(other, otherKey, Nil)]);
      && |sent| == 2
      && sent[1].file == other && sent[1].key == UploadKey(other, otherKey)
      && ContentType in sent[1].headers && sent[1].headers[ContentType] == "text/csv"
      && ContentDisposition in sent[1].headers && sent[1].headers[ContentDisposition] == "attachment; filename=" + csvKey
  {
    var c1 := PutCall(csvFile, Some(csvKey), Name("csv"));
    var h1 := AfterPut(h, c1);
    forall c2 | c2 == PutCall(other, otherKey, Name("pdf")) || c2 == PutCall(other, otherKey, Nil)
      ensures Sent(bucket, h, [c1, c2]) == UploadOf(bucket, h, c1) + UploadOf(bucket, h1, c2)
    {
      assert [c1, c2][1..] == [c2];
      assert Sent(bucket, h1, [c2]) == UploadOf(bucket, h1, c2) + Sent(bucket, AfterPut(h1, c2), []);
    }
  }

  // ---------------------------------------------------------------------
  // initialize

  /** `KOYO_S3_PUBLIC` turns on public read exactly when it spells "true" in
      any mix of cases; an unset variable turns it off. */
  lemma PublicReadDefaultIff(env: Option<string>)
    ensures PublicReadDefault(env) <==>
      && env.Some?
      && |env.value| == 4
      && (env.value[0] == 't' || env.value[0] == 'T')
      && (env.value[1] == 'r' || env.value[1] == 'R')
      && (env.value[2] == 'u' || env.value[2] == 'U')
      && (env.value[3] == 'e' || env.value[3] == 'E')
  {
    DowncaseEqualsLowerWord(OptionText(env), "true");
  }

  /** A caller that uploads three files through one public-read instance:
      the later uploads carry the headers the earlier ones set. */
  method StickyHeadersClient()
  {
    var s3 := new S3(Some("reports"), true, None);
    var r1 := s3.PutFile("/tmp/report.csv", Some("report.csv"), Name("csv"));
    assert AttachmentPrefix + OptionText(Some("report.csv")) == "attachment; filename=report.csv";
    assert s3.headers == map[Acl := "public-read", ContentDisposition := "attachment; filename=report.csv", ContentType := "text/csv"];
    var r2 := s3.PutFile("/tmp/invoice.pdf", Some("invoice.pdf"), Name("pdf"));
    assert s3.headers == map[Acl := "public-read", ContentDisposition := "attachment; filename=report.csv", ContentType := "application/pdf"];
    var r3 := s3.PutFile("/tmp/notes.txt", Some("notes.txt"), Nil);
    assert r3 == Ok(Some("notes.txt"));
    var last := s3.uploads[|s3.uploads| - 1];
    assert last.key == Some("notes.txt");
    assert last.headers[ContentDisposition] == "attachment; filename=report.csv";
    assert last.headers[ContentType] == "application/pdf";
  }
}
