/** How a payload directory is named and shipped to object storage
    (lib/hygroscope/payload.rb): the account id taken from the user's ARN,
    the bucket and archive names built from it and from the clock, the
    prefix and object key, and the three steps of `upload!` with the
    locator it returns. The storage and identity services, the zip archiver
    and the file system are not part of this model: their calls are recorded
    as effects, in order. */
module Payloads {
  import opened Text

  const BucketPrefix := "hygroscope-payloads-"
  const ArchivePrefix := "payload-"
  const ArchiveSuffix := ".zip"
  const Scheme := "s3://"

  // ---------------------------------------------------------------------
  // Names
  // ---------------------------------------------------------------------

  /** `arn.split(':')[4]`, interpolated: the fifth field, or empty when the
      ARN has fewer fields. */
  function AccountId(arn: string): string {
    FieldOrEmpty(RubySplit(arn, ':'), 4)
  }

  /** For an ARN made of fields without `:`, the account id is the fifth
      field, or empty when there are fewer than five. */
  lemma AccountIdOfArn(fields: seq<string>)
    requires |fields| >= 1
    requires forall i :: 0 <= i < |fields| ==> ':' !in fields[i]
    ensures |fields| >= 5 ==> AccountId(Join(fields, ":")) == fields[4]
    ensures |fields| < 5 ==> AccountId(Join(fields, ":")) == ""
  {
    SplitJoin(fields, ':');
    DropTrailingEmptyKeepsFields(fields, 4);
  }

  function BucketFor(accountId: string): string {
    BucketPrefix + accountId
  }

  /** The bucket names the account: its id follows the fixed prefix. */
  lemma BucketNamesAccount(accountId: string)
    ensures var b := BucketFor(accountId);
      |b| == |BucketPrefix| + |accountId| && b[..|BucketPrefix|] == BucketPrefix
      && b[|BucketPrefix|..] == accountId
  {
  }

  /** `"payload-#{now}.zip"` for the clock reading `now` in whole seconds. */
  function ArchiveName(now: int): string {
    ArchivePrefix + IntToString(now) + ArchiveSuffix
  }

  /** The archive name carries the clock reading: stripping the fixed prefix
      and suffix and reading the rest as an integer gives it back. */
  lemma ArchiveNameTimestamp(now: int)
    ensures var n := ArchiveName(now);
      |n| >= |ArchivePrefix| + |ArchiveSuffix|
      && n[..|ArchivePrefix|] == ArchivePrefix
      && n[|n| - |ArchiveSuffix|..] == ArchiveSuffix
      && ParseInt(n[|ArchivePrefix|..|n| - |ArchiveSuffix|]) == Some(now)
  {
    var n := ArchiveName(now);
    var digits := IntToString(now);
    assert n[|ArchivePrefix|..|n| - |ArchiveSuffix|] == digits;
    IntToStringRoundTrip(now);
  }

  /** `"#{@prefix}/#{@name}"`: the assigned prefix as it is (empty when none
      was assigned), a slash, the archive name. */
  function KeyFor(prefix: Option<string>, name: string): string {
    (if prefix.Some? then prefix.value else "") + "/" + name
  }

  /** The key ends with the archive name after a slash, starts with the
      assigned prefix, and is just that slash and name when no prefix was
      assigned: the directory fallback of `prefix` plays no part in it. */
  lemma KeyLayout(prefix: Option<string>, name: string)
    ensures var k := KeyFor(prefix, name);
      |k| > |name| && k[|k| - |name| - 1..] == "/" + name
      && (prefix.None? ==> k == "/" + name)
      && (prefix.Some? ==> k[..|prefix.value|] == prefix.value)
  {
  }

  /** `"s3://#{bucket}/#{key}"` */
  function Locator(bucket: string, key: string): string {
    Scheme + bucket + "/" + key
  }

  /** The position of the first `c` in `s`, if any. */
  function IndexOf(s: string, c: char): (r: Option<nat>)
    ensures r.Some? ==> r.value < |s| && s[r.value] == c && c !in s[..r.value]
    ensures r.None? ==> c !in s
  {
    if s == [] then None
    else if s[0] == c then Some(0)
    else
      var rest := IndexOf(s[1..], c);
      if rest.Some? then
        assert s[..rest.value + 1] == [s[0]] + s[1..][..rest.value];
        Some(rest.value + 1)
      else
        assert s == [s[0]] + s[1..];
        None
  }

  /** Reads a locator back: the bucket runs up to the first slash after the
      scheme, the key is everything after it. */
  function ParseLocator(s: string): Option<(string, string)> {
    if |s| < |Scheme| || s[..|Scheme|] != Scheme then None
    else
      var rest := s[|Scheme|..];
      match IndexOf(rest, '/')
      case None => None
      case Some(i) => Some((rest[..i], rest[i + 1..]))
  }

  /** A locator names its bucket and key: as long as the bucket holds no
      slash, reading it back gives both. */
  lemma {:induction false} LocatorRoundTrip(bucket: string, key: string)
    requires '/' !in bucket
    ensures ParseLocator(Locator(bucket, key)) == Some((bucket, key))
  {
    var s := Locator(bucket, key);
    assert s[..|Scheme|] == Scheme;
    var rest := s[|Scheme|..];
    assert rest == bucket + "/" + key;
    IndexOfAfter(bucket, key);
    assert rest[..|bucket|] == bucket && rest[|bucket| + 1..] == key;
  }

  lemma {:induction false} IndexOfAfter(bucket: string, key: string)
    requires '/' !in bucket
    ensures IndexOf(bucket + "/" + key, '/') == Some(|bucket|)
    decreases |bucket|
  {
    var s := bucket + "/" + key;
    if bucket != [] {
      assert bucket[0] in bucket;
      assert s[1..] == bucket[1..] + "/" + key;
      assert forall c :: c in bucket[1..] ==> c in bucket;
      IndexOfAfter(bucket[1..], key);
    }
  }

  // ---------------------------------------------------------------------
  // File.dirname
  // ---------------------------------------------------------------------

  /** The number of slashes `s` starts with. */
  function LeadingSlashes(s: string): (r: nat)
    ensures r <= |s|
    ensures forall i :: 0 <= i < r ==> s[i] == '/'
    ensures r < |s| ==> s[r] != '/'
  {
    if s == [] || s[0] != '/' then 0 else 1 + LeadingSlashes(s[1..])
  }

  /** `s` without the slashes it ends with. */
  function DropTrailingSlashes(s: string): (r: string)
    ensures |r| <= |s| && r == s[..|r|]
    ensures r == [] || r[|r| - 1] != '/'
  {
    if s == [] || s[|s| - 1] != '/' then s else DropTrailingSlashes(s[..|s| - 1])
  }

  /** `s` without the last path component (the characters after its last
      slash). */
  function DropLastName(s: string): (r: string)
    ensures |r| <= |s| && r == s[..|r|]
    ensures r == [] || r[|r| - 1] == '/'
  {
    if s == [] || s[|s| - 1] == '/' then s else DropLastName(s[..|s| - 1])
  }

  /** Ruby's `File.dirname` on a POSIX system: the path without its last
      component and the slashes before it; `.` when nothing is left of a
      relative path, `/` when nothing is left of an absolute one; several
      leading slashes count as one. */
  function Dirname(p: string): (r: string)
    ensures r != ""
  {
    var lead := LeadingSlashes(p);
    if p == "" then "."
    else if lead == |p| then "/"
    else
      var head := DropTrailingSlashes(DropLastName(DropTrailingSlashes(p[lead..])));
      if head == "" then (if lead > 0 then "/" else ".")
      else (if lead > 0 then "/" else "") + head
  }

  lemma {:induction false} DropLastNameAfterSlash(x: string, b: string)
    requires '/' !in b
    ensures DropLastName(x + "/" + b) == x + "/"
    decreases |b|
  {
    var s := x + "/" + b;
    if b == [] {
      assert s == x + "/";
    } else {
      assert b[|b| - 1] in b;
      assert s[..|s| - 1] == x + "/" + b[..|b| - 1];
      assert forall c :: c in b[..|b| - 1] ==> c in b;
      DropLastNameAfterSlash(x, b[..|b| - 1]);
    }
  }

  lemma {:induction false} DropLastNameOfName(b: string)
    requires '/' !in b
    ensures DropLastName(b) == ""
    decreases |b|
  {
    if b != [] {
      assert b[|b| - 1] in b;
      assert forall c :: c in b[..|b| - 1] ==> c in b;
      DropLastNameOfName(b[..|b| - 1]);
    }
  }

  /** A path that is a directory `d`, a slash and a name `b` has `d` as its
      dirname, provided `d` is written plainly: not empty, no slash at its
      end, not two slashes at its start. */
  lemma DirnameOfJoin(d: string, b: string)
    requires d != "" && d[|d| - 1] != '/' && !(|d| >= 2 && d[0] == '/' && d[1] == '/')
    requires b != "" && '/' !in b
    ensures Dirname(d + "/" + b) == d
  {
    var p := d + "/" + b;
    LeadOfJoin(d, b);
    var lead := LeadingSlashes(p);
    assert p[lead..] == d[lead..] + "/" + b;
    HeadOfJoin(d[lead..], b);
    assert lead == 1 ==> d == "/" + d[1..];
  }

  /** The leading slashes of `d + "/" + b` are those of `d`: none or one. */
  lemma LeadOfJoin(d: string, b: string)
    requires d != "" && d[|d| - 1] != '/' && !(|d| >= 2 && d[0] == '/' && d[1] == '/')
    ensures var lead := LeadingSlashes(d + "/" + b);
      lead <= 1 && lead < |d| && (lead == 1 <==> d[0] == '/')
  {
    var p := d + "/" + b;
    var lead := LeadingSlashes(p);
    var dl := LeadingSlashes(d);
    assert dl < |d|;
    assert p[dl] == d[dl];
    assert lead == dl;
  }

  /** Past the leading slashes, the dirname of `e + "/" + b` keeps `e`. */
  lemma HeadOfJoin(e: string, b: string)
    requires e != "" && e[|e| - 1] != '/' && b != "" && '/' !in b
    ensures DropTrailingSlashes(DropLastName(DropTrailingSlashes(e + "/" + b))) == e
  {
    var body := e + "/" + b;
    assert b[|b| - 1] in b;
    assert body[|body| - 1] == b[|b| - 1];
    assert DropTrailingSlashes(body) == body;
    DropLastNameAfterSlash(e, b);
    DropOneTrailingSlash(e);
  }

  lemma DropOneTrailingSlash(e: string)
    requires e != "" && e[|e| - 1] != '/'
    ensures DropTrailingSlashes(e + "/") == e
  {
    assert (e + "/")[..|e|] == e;
  }

  /** A bare name has `.` as its dirname. */
  lemma DirnameOfName(b: string)
    requires b != "" && '/' !in b
    ensures Dirname(b) == "."
  {
    assert b[0] in b;
    assert LeadingSlashes(b) == 0;
    assert b[|b| - 1] in b;
    assert b[0..] == b;
    DropLastNameOfName(b);
  }

  // ---------------------------------------------------------------------
  // The payload object
  // ---------------------------------------------------------------------

  /** A call `upload!` makes on the outside world. */
  datatype Effect =
    | CreateBucket(bucket: string, acl: string)
    | ArchiveDirectory(source: string, archiveName: string)
    | PutObject(bucket: string, key: string, body: Option<string>)

  /** `Hygroscope::Payload`: the directory to ship, the names made for it
      when it is created, the prefix a caller may assign, the archive once
      it is prepared, and the calls made so far. */
  class Payload {
    const path: string
    const accountId: string
    const bucket: string
    const name: string
    var prefix: Option<string>
    var archive: Option<string>
    var effects: seq<Effect>

    /** `Payload.new(path)`, with the user's ARN and the clock reading in
        whole seconds given rather than fetched. */
    constructor (path: string, userArn: string, now: int)
      ensures this.path == path && accountId == AccountId(userArn)
      ensures bucket == BucketFor(accountId) && name == ArchiveName(now)
      ensures prefix == None && archive == None && effects == []
    {
      this.path := path;
      accountId := AccountId(userArn);
      bucket := BucketFor(AccountId(userArn));
      name := ArchiveName(now);
      prefix := None;
      archive := None;
      effects := [];
    }

    /** `prefix`: the assigned prefix, else the directory two levels above
        the payload directory. */
    function Prefix(): string
      reads this
    {
      if prefix.Some? then prefix.value else Dirname(Dirname(path))
    }

    /** `key`, built from the assigned prefix only. */
    function Key(): string
      reads this
    {
      KeyFor(prefix, name)
    }

    /** `prefix = p` */
    method SetPrefix(p: Option<string>)
      modifies this
      ensures prefix == p && archive == old(archive) && effects == old(effects)
    {
      prefix := p;
    }

    /** `create_bucket`: asks for a private bucket (the service answers with
        success when the bucket is already there). */
    method MakeBucket()
      modifies this
      ensures effects == old(effects) + [CreateBucket(bucket, "private")]
      ensures prefix == old(prefix) && archive == old(archive)
    {
      effects := effects + [CreateBucket(bucket, "private")];
    }

    /** `prepare`: zips the contents of the payload directory under the
        archive name and keeps the archive. */
    method Prepare()
      modifies this
      ensures effects == old(effects) + [ArchiveDirectory(path + "/.", name)]
      ensures archive == Some(name) && prefix == old(prefix)
    {
      effects := effects + [ArchiveDirectory(path + "/.", name)];
      archive := Some(name);
    }

    /** `send`: stores the archive in the bucket under the key. */
    method Send()
      modifies this
      ensures effects == old(effects) + [PutObject(bucket, Key(), archive)]
      ensures prefix == old(prefix) && archive == old(archive)
    {
      effects := effects + [PutObject(bucket, Key(), archive)];
    }

    /** `upload!`: bucket, archive, object, in that order; the object holds
        the archive just made, and the locator returned names the bucket and
        the key. */
    method Upload() returns (locator: string)
      modifies this
      ensures effects == old(effects) + [CreateBucket(bucket, "private"),
                                         ArchiveDirectory(path + "/.", name),
                                         PutObject(bucket, Key(), Some(name))]
      ensures locator == Locator(bucket, Key())
      ensures archive == Some(name) && prefix == old(prefix)
    {
      MakeBucket();
      Prepare();
      Send();
      locator := Locator(bucket, Key());
    }
  }

  /** With no prefix assigned, a payload kept in `d/x/b` has `d` as its
      prefix. */
  lemma PrefixFallback(pl: Payload, d: string, x: string, b: string)
    requires pl.prefix.None? && pl.path == d + "/" + x + "/" + b
    requires d != "" && d[|d| - 1] != '/' && !(|d| >= 2 && d[0] == '/' && d[1] == '/')
    requires x != "" && '/' !in x && b != "" && '/' !in b
    ensures pl.Prefix() == d
  {
    var dx := d + "/" + x;
    assert x[|x| - 1] in x;
    assert dx[|dx| - 1] == x[|x| - 1];
    assert |dx| >= 2 && dx[0] == '/' ==> dx[1] == (if |d| >= 2 then d[1] else '/');
    DirnameOfJoin(dx, b);
    DirnameOfJoin(d, x);
  }

  /** The locator `upload!` returns reads back as the payload's bucket and
      key, whenever the account id holds no slash. */
  lemma UploadLocatorNamesObject(pl: Payload)
    requires '/' !in pl.accountId && pl.bucket == BucketFor(pl.accountId)
    ensures ParseLocator(Locator(pl.bucket, pl.Key())) == Some((pl.bucket, pl.Key()))
  {
    assert forall i :: 0 <= i < |pl.bucket| ==> pl.bucket[i] != '/' by {
      forall i | 0 <= i < |pl.bucket| ensures pl.bucket[i] != '/' {
        if i >= |BucketPrefix| { assert pl.bucket[i] == pl.accountId[i - |BucketPrefix|]; }
      }
    }
    LocatorRoundTrip(pl.bucket, pl.Key());
  }
}
