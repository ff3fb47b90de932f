/** `localize` and `delocalize`, which both scripts define identically: the
    string handling that turns an `s3://bucket/key` path into the bucket
    and key handed to the S3 client. The client calls, the temporary file
    and the reads and writes are left to the caller. */
module S3Paths {
  import opened Text
  import opened Results

  const Scheme: string := "s3://"

  /** What `localize` does with its input: a local path is used as it is;
      an S3 object is downloaded into a fresh temporary file whose name ends
      in `suffix` (`.gz` for a gzipped key). */
  datatype Location =
    | LocalPath(path: string)
    | S3Download(bucket: string, key: string, suffix: Option<string>)

  /** `bucket, *key = s.split('/')` followed by `'/'.join(key)`: the text
      before the first `/`, and everything after it. */
  function SplitBucketKey(s: string): (bk: (string, string))
    ensures '/' !in bk.0
    ensures '/' in s ==> s == bk.0 + "/" + bk.1
    ensures '/' !in s ==> bk.0 == s && bk.1 == ""
  {
    var parts := Split(s, '/');
    JoinSplit(s, '/');
    if |parts| >= 2 then
      assert parts == [parts[0]] + parts[1..];
      JoinCons(parts[0], parts[1..], '/');
      assert s[|parts[0]|] == '/';
      (parts[0], Join(parts[1..], '/'))
    else
      (parts[0], Join(parts[1..], '/'))
  }

  /** Joining a bucket without `/` to a key and splitting again gives
      them back. */
  lemma SplitBucketKeyOf(bucket: string, key: string)
    requires '/' !in bucket
    ensures SplitBucketKey(bucket + "/" + key) == (bucket, key)
  {
    assert bucket + "/" + key == bucket + ['/'] + key;
    SplitField(bucket, key, '/');
    assert ([bucket] + Split(key, '/'))[1..] == Split(key, '/');
    JoinSplit(key, '/');
  }

  /** The `.gz` suffix for the temporary file, when the key is gzipped. */
  function GzSuffix(key: string): (suffix: Option<string>)
    ensures suffix.Some? <==> EndsWith(key, ".gz")
    ensures suffix.Some? ==> suffix.value == ".gz"
  {
    if EndsWith(key, ".gz") then Some(".gz") else None
  }

  /** `localize(path)` as written: the scheme test lower-cases the path, but
      the scheme is then removed with a case-sensitive `replace`, which also
      removes every later occurrence. */
  function Localize(path: string): (loc: Location)
    ensures loc.LocalPath? <==> !StartsWith(Lower(path), Scheme)
    ensures loc.LocalPath? ==> loc.path == path
    ensures loc.S3Download? ==>
      && '/' !in loc.bucket
      && loc.suffix == GzSuffix(loc.key)
      && ('/' in RemoveAll(path, Scheme) ==> RemoveAll(path, Scheme) == loc.bucket + "/" + loc.key)
      && ('/' !in RemoveAll(path, Scheme) ==> loc.bucket == RemoveAll(path, Scheme) && loc.key == "")
  {
    if StartsWith(Lower(path), Scheme) then
      var bk := SplitBucketKey(RemoveAll(path, Scheme));
      S3Download(bk.0, bk.1, GzSuffix(bk.1))
    else LocalPath(path)
  }

  /** `localize` with the scheme removed only where it was recognised: the
      first five characters, whatever their case. The path is then exactly
      the scheme, the bucket, a `/` and the key. */
  function LocalizeCorrected(path: string): (loc: Location)
    ensures loc.LocalPath? <==> !StartsWith(Lower(path), Scheme)
    ensures loc.LocalPath? ==> loc.path == path
    ensures loc.S3Download? ==>
      && |path| >= |Scheme|
      && Lower(path[..|Scheme|]) == Scheme
      && '/' !in loc.bucket
      && loc.suffix == GzSuffix(loc.key)
      && ('/' in path[|Scheme|..] ==> path == path[..|Scheme|] + loc.bucket + "/" + loc.key)
      && ('/' !in path[|Scheme|..] ==> path == path[..|Scheme|] + loc.bucket && loc.key == "")
  {
    if StartsWith(Lower(path), Scheme) then
      var head := path[..|Scheme|];
      var rest := path[|Scheme|..];
      var bk := SplitBucketKey(rest);
      assert Lower(path)[..|Scheme|] == Lower(head);
      assert path == head + rest;
      assert '/' in rest ==> head + rest == head + bk.0 + "/" + bk.1;
      S3Download(bk.0, bk.1, GzSuffix(bk.1))
    else LocalPath(path)
  }

  /** No occurrence of the scheme anywhere in `s`. */
  ghost predicate SchemeFree(s: string) {
    forall i: nat :: !OccursAt(s, Scheme, i)
  }

  /** Removing the scheme from `s3://` followed by a scheme-free rest
      leaves the rest. */
  lemma RemoveLeadingScheme(rest: string)
    requires SchemeFree(rest)
    ensures RemoveAll(Scheme + rest, Scheme) == rest
  {
    var s := Scheme + rest;
    assert s[..|Scheme|] == Scheme && s[|Scheme|..] == rest;
    RemoveAllAbsent(rest, Scheme);
  }

  /** On a lower-case URL in which the scheme does not reappear, the
      script's `localize` and the corrected one agree. */
  lemma LocalizeAgreesOnPlainUrls(rest: string)
    requires SchemeFree(rest)
    ensures Localize(Scheme + rest) == LocalizeCorrected(Scheme + rest)
    ensures Localize(Scheme + rest).S3Download?
  {
    var s := Scheme + rest;
    RemoveLeadingScheme(rest);
    assert Lower(s)[..|Scheme|] == Lower(Scheme) == Scheme;
    assert s[|Scheme|..] == rest;
  }

  /** The case-sensitive `replace` finds nothing to remove in `S3://`
      followed by a scheme-free rest. */
  lemma UpperSchemeSurvives(rest: string)
    requires SchemeFree(rest)
    ensures RemoveAll("S3://" + rest, Scheme) == "S3://" + rest
  {
    var s := "S3://" + rest;
    assert s[5..] == rest;
    forall i: nat ensures !OccursAt(s, Scheme, i) {
      if i < 5 {
        if i + 5 <= |s| {
          assert s[i..i + 5][0] == s[i];
        }
      } else {
        OccursInSuffix(s, Scheme, 5, i - 5);
      }
    }
    RemoveAllAbsent(s, Scheme);
  }

  /** An upper-case scheme passes the case-insensitive test but survives
      the case-sensitive `replace`, so the bucket becomes `S3:` and the key
      the whole of the rest after a leading `/`; the corrected `localize`
      reads the bucket and key off the rest. */
  lemma LocalizeUpperScheme(rest: string)
    requires SchemeFree(rest)
    ensures Localize("S3://" + rest) == S3Download("S3:", "/" + rest, GzSuffix("/" + rest))
    ensures LocalizeCorrected("S3://" + rest)
         == S3Download(SplitBucketKey(rest).0, SplitBucketKey(rest).1, GzSuffix(SplitBucketKey(rest).1))
  {
    var s := "S3://" + rest;
    assert Lower(s)[..5] == Lower("S3://") == Scheme;
    UpperSchemeSurvives(rest);
    assert s == "S3:" + "/" + ("/" + rest);
    SplitBucketKeyOf("S3:", "/" + rest);
    assert s[5..] == rest;
  }

  /** Where `delocalize` uploads `file`: the bucket of `s3path`, and its key
      prefix with the file's base name appended. */
  datatype Upload = Upload(bucket: string, key: string)

  function DelocalizeTarget(file: string, s3path: string): (up: Upload)
    ensures '/' !in up.bucket
    ensures EndsWith(up.key, Basename(file))
  {
    var parts := Split(RemoveAll(s3path, Scheme), '/');
    var keyParts := parts[1..] + [Basename(file)];
    JoinLast(keyParts, '/');
    Upload(parts[0], Join(keyParts, '/'))
  }

  /** The URL `delocalize` returns, `'s3://' + '/'.join([bucket, key])`: the
      output path with the scheme removed, a `/`, and the file's base name. */
  function DelocalizeUrl(file: string, s3path: string): (url: string)
    ensures url == Scheme + RemoveAll(s3path, Scheme) + "/" + Basename(file)
  {
    var up := DelocalizeTarget(file, s3path);
    var parts := Split(RemoveAll(s3path, Scheme), '/');
    var b := Basename(file);
    calc {
      up.bucket + "/" + up.key;
      { assert parts + [b] == [parts[0]] + (parts[1..] + [b]);
        JoinCons(parts[0], parts[1..] + [b], '/'); }
      Join(parts + [b], '/');
      { JoinSnoc(parts, b, '/'); JoinSplit(RemoveAll(s3path, Scheme), '/'); }
      RemoveAll(s3path, Scheme) + "/" + b;
    }
    Scheme + (up.bucket + "/" + up.key)
  }

  /** A field without `/` appended after a `/` becomes the last field. */
  lemma SplitAppendField(s: string, field: string)
    requires '/' !in field
    ensures Split(s + "/" + field, '/') == Split(s, '/') + [field]
  {
    var parts := Split(s, '/');
    JoinSplit(s, '/');
    JoinSnoc(parts, field, '/');
    SplitJoin(parts + [field], '/');
  }

  lemma TailOfSnoc<T>(xs: seq<T>, x: T)
    requires |xs| >= 1
    ensures (xs + [x])[1..] == xs[1..] + [x]
  {
  }

  /** A scheme-free string has scheme-free prefixes. */
  lemma SchemeFreePrefix(s: string, j: nat)
    requires j <= |s| && SchemeFree(s)
    ensures SchemeFree(s[..j])
  {
    forall i: nat ensures !OccursAt(s[..j], Scheme, i) {
      assert !OccursAt(s, Scheme, i);
      if i + |Scheme| <= j {
        assert s[..j][i..i + |Scheme|] == s[i..i + |Scheme|];
      }
    }
  }

  /** `localize` on `s3://` followed by a scheme-free rest downloads the
      bucket and key read off the rest. */
  lemma LocalizePlainUrl(rest: string)
    requires SchemeFree(rest)
    ensures Localize(Scheme + rest)
         == S3Download(SplitBucketKey(rest).0, SplitBucketKey(rest).1, GzSuffix(SplitBucketKey(rest).1))
  {
    var s := Scheme + rest;
    RemoveLeadingScheme(rest);
    assert Lower(s)[..|Scheme|] == Lower(Scheme) == Scheme;
  }

  /** The upload target of `delocalize` for `s3://` followed by a
      scheme-free rest. */
  lemma DelocalizeTargetPlain(file: string, rest: string)
    requires SchemeFree(rest)
    ensures DelocalizeTarget(file, Scheme + rest)
         == Upload(Split(rest, '/')[0], Join(Split(rest, '/')[1..] + [Basename(file)], '/'))
  {
    RemoveLeadingScheme(rest);
  }

  /** Downloading from the URL `delocalize` returns reaches the object it
      uploaded, as long as the scheme does not reappear in the path. */
  lemma DelocalizeThenLocalize(file: string, rest: string)
    requires SchemeFree(rest + "/" + Basename(file))
    ensures var up := DelocalizeTarget(file, Scheme + rest);
      Localize(DelocalizeUrl(file, Scheme + rest)) == S3Download(up.bucket, up.key, GzSuffix(up.key))
  {
    var b := Basename(file);
    var t := rest + "/" + b;
    assert t[..|rest|] == rest;
    SchemeFreePrefix(t, |rest|);
    RemoveLeadingScheme(rest);
    assert DelocalizeUrl(file, Scheme + rest) == Scheme + t;
    LocalizePlainUrl(t);
    DelocalizeTargetPlain(file, rest);
    var parts := Split(rest, '/');
    SplitAppendField(rest, b);
    TailOfSnoc(parts, b);
    assert SplitBucketKey(t) == (parts[0], Join(parts[1..] + [b], '/'));
  }

  /** With the scheme dropped from the front only, downloading from the URL
      `delocalize` returns always reaches the object it uploaded, whatever
      the output path holds. */
  lemma DelocalizeThenLocalizeCorrected(file: string, s3path: string)
    ensures var up := DelocalizeTarget(file, s3path);
      LocalizeCorrected(DelocalizeUrl(file, s3path)) == S3Download(up.bucket, up.key, GzSuffix(up.key))
  {
    var b := Basename(file);
    var rest := RemoveAll(s3path, Scheme) + "/" + b;
    var url := Scheme + rest;
    assert DelocalizeUrl(file, s3path) == url;
    assert Lower(url)[..|Scheme|] == Lower(Scheme) == Scheme;
    assert url[|Scheme|..] == rest;
    var parts := Split(RemoveAll(s3path, Scheme), '/');
    SplitAppendField(RemoveAll(s3path, Scheme), b);
    TailOfSnoc(parts, b);
    assert SplitBucketKey(rest) == (parts[0], Join(parts[1..] + [b], '/'));
  }
}
